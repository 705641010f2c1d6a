/** QueueFamilyIndices and findQueueFamilies. The scan assigns an index to a field on
    every family that has the capability, not only on the first, and breaks as soon as
    both fields are set. So at the stop position each field holds the LAST capable
    family seen so far. */
module QueueFamilies {
  import opened Wrappers
  import opened VulkanTypes
  import Seqs

  datatype QueueFamilyIndices = QueueFamilyIndices(graphicsFamily: Option<nat>, presentFamily: Option<nat>) {
    predicate IsComplete() {
      graphicsFamily.Some? && presentFamily.Some?
    }
  }

  /** `queueFlags & VK_QUEUE_GRAPHICS_BIT` is non-zero. */
  predicate SupportsGraphics(f: QueueFamily) {
    f.queueFlags & QueueGraphicsBit != 0
  }

  predicate SupportsPresent(f: QueueFamily) {
    f.presentSupport
  }

  /** The indices after a scan over the first `n` families that never broke early:
      the last graphics family and the last present family among them. */
  function SeenUpTo(families: seq<QueueFamily>, n: nat): QueueFamilyIndices
    requires n <= |families|
  {
    QueueFamilyIndices(
      Seqs.LastMatch(families, SupportsGraphics, n),
      Seqs.LastMatch(families, SupportsPresent, n))
  }

  /** Both capabilities occur among the first `n` families. */
  predicate ReadyBy(families: seq<QueueFamily>, n: nat)
    requires n <= |families|
  {
    SeenUpTo(families, n).IsComplete()
  }

  /** The scan breaks at index `k`: both capabilities have been seen at or before `k`,
      and not both before it. */
  predicate StopsAt(families: seq<QueueFamily>, k: nat) {
    k < |families| && ReadyBy(families, k + 1) && !ReadyBy(families, k)
  }

  /** One iteration of the loop body at index `i`: present first, then graphics. */
  function Visit(acc: QueueFamilyIndices, f: QueueFamily, i: nat): QueueFamilyIndices {
    var afterPresent := if f.presentSupport then acc.(presentFamily := Some(i)) else acc;
    if SupportsGraphics(f) then afterPresent.(graphicsFamily := Some(i)) else afterPresent
  }

  /** The loop from index `i` on, with `acc` the indices so far. */
  function ScanFrom(families: seq<QueueFamily>, i: nat, acc: QueueFamilyIndices): (r: QueueFamilyIndices)
    requires i <= |families|
    requires acc == SeenUpTo(families, i) && !ReadyBy(families, i)
    ensures r.IsComplete() ==> exists k: nat :: i <= k && StopsAt(families, k) && r == SeenUpTo(families, k + 1)
    ensures !r.IsComplete() ==> !ReadyBy(families, |families|) && r == SeenUpTo(families, |families|)
    decreases |families| - i
  {
    if i == |families| then acc
    else
      var next := Visit(acc, families[i], i);
      assert next == SeenUpTo(families, i + 1);
      if next.IsComplete() then
        assert StopsAt(families, i);
        next
      else
        ScanFrom(families, i + 1, next)
  }

  /** findQueueFamilies: complete exactly when some family supports graphics and some
      family supports present; then each field is the last capable index up to the stop
      position, otherwise the last capable index overall, if any. */
  function FindQueueFamilies(families: seq<QueueFamily>): (r: QueueFamilyIndices)
    ensures r.IsComplete() <==> ReadyBy(families, |families|)
    ensures r.IsComplete() ==> exists k: nat :: StopsAt(families, k) && r == SeenUpTo(families, k + 1)
    ensures !r.IsComplete() ==> r == SeenUpTo(families, |families|)
    ensures r.graphicsFamily.Some? ==>
              r.graphicsFamily.value < |families| && SupportsGraphics(families[r.graphicsFamily.value])
    ensures r.presentFamily.Some? ==>
              r.presentFamily.value < |families| && SupportsPresent(families[r.presentFamily.value])
  {
    StoppingImpliesReady(families);
    ScanFrom(families, 0, QueueFamilyIndices(None, None))
  }

  lemma StoppingImpliesReady(families: seq<QueueFamily>)
    ensures (exists k: nat :: StopsAt(families, k)) ==> ReadyBy(families, |families|)
  {
    if k: nat :| StopsAt(families, k) {
      ReadyMonotone(families, k + 1, |families|);
    }
  }

  /** Once both capabilities are seen, they stay seen. */
  lemma ReadyMonotone(families: seq<QueueFamily>, m: nat, n: nat)
    requires m <= n <= |families|
    requires ReadyBy(families, m)
    ensures ReadyBy(families, n)
  {
    var g := Seqs.LastMatch(families, SupportsGraphics, m).value;
    var p := Seqs.LastMatch(families, SupportsPresent, m).value;
    assert SupportsGraphics(families[g]) && SupportsPresent(families[p]);
  }

  /** The stop position is unique. */
  lemma StopIsUnique(families: seq<QueueFamily>, k: nat, k': nat)
    requires StopsAt(families, k) && StopsAt(families, k')
    ensures k == k'
  {
    if k < k' {
      ReadyMonotone(families, k + 1, k');
    } else if k' < k {
      ReadyMonotone(families, k' + 1, k);
    }
  }

  /** Wherever the scan stops, the result is what was seen up to and including that family. */
  lemma ResultAtStop(families: seq<QueueFamily>, k: nat)
    requires StopsAt(families, k)
    ensures FindQueueFamilies(families) == SeenUpTo(families, k + 1)
  {
    ReadyMonotone(families, k + 1, |families|);
    var r := FindQueueFamilies(families);
    var k': nat :| StopsAt(families, k') && r == SeenUpTo(families, k' + 1);
    StopIsUnique(families, k, k');
  }

  /** At the stop position at least one field names the family at that position. */
  lemma StopFamilyIsAssigned(families: seq<QueueFamily>, k: nat)
    requires StopsAt(families, k)
    ensures var r := SeenUpTo(families, k + 1);
            r.graphicsFamily == Some(k) || r.presentFamily == Some(k)
  {
  }

  /** A complete result always names the stop family in at least one field. */
  lemma CompleteResultNamesStopFamily(families: seq<QueueFamily>)
    requires FindQueueFamilies(families).IsComplete()
    ensures var r := FindQueueFamilies(families);
            exists k: nat :: StopsAt(families, k) && (r.graphicsFamily == Some(k) || r.presentFamily == Some(k))
  {
    var r := FindQueueFamilies(families);
    var k: nat :| StopsAt(families, k) && r == SeenUpTo(families, k + 1);
    StopFamilyIsAssigned(families, k);
  }

  /** Without any present-capable family the result is incomplete. */
  lemma NoPresentFamilyIsIncomplete(families: seq<QueueFamily>)
    requires forall j :: 0 <= j < |families| ==> !families[j].presentSupport
    ensures !FindQueueFamilies(families).IsComplete()
  {
  }

  /** A family with both capabilities reached before the scan stopped is taken for both
      fields, because the loop overwrites both on it. */
  lemma DualFamilyAtStopTakesBoth(families: seq<QueueFamily>, k: nat)
    requires k < |families| && SupportsGraphics(families[k]) && SupportsPresent(families[k])
    requires !ReadyBy(families, k)
    ensures FindQueueFamilies(families) == QueueFamilyIndices(Some(k), Some(k))
  {
    assert StopsAt(families, k);
    ResultAtStop(families, k);
  }

  const GraphicsOnly := QueueFamily(QueueGraphicsBit, false)
  const PresentOnly := QueueFamily(0, true)
  const GraphicsAndPresent := QueueFamily(QueueGraphicsBit, true)

  /** Overwriting keeps the last graphics family before the stop, not the first. */
  lemma LaterGraphicsFamilyOverwrites()
    ensures FindQueueFamilies([GraphicsOnly, GraphicsOnly, PresentOnly]) == QueueFamilyIndices(Some(1), Some(2))
  {
    var fs := [GraphicsOnly, GraphicsOnly, PresentOnly];
    assert SupportsGraphics(fs[1]) && !SupportsGraphics(fs[2]) && SupportsPresent(fs[2]);
    assert !SupportsPresent(fs[0]) && !SupportsPresent(fs[1]);
    assert StopsAt(fs, 2);
    ResultAtStop(fs, 2);
  }

  /** A single family with both capabilities is not chosen when split families before
      it already complete the scan. */
  lemma SplitFamiliesBeforeDualFamilyWin()
    ensures FindQueueFamilies([GraphicsOnly, PresentOnly, GraphicsAndPresent]) == QueueFamilyIndices(Some(0), Some(1))
  {
    var fs := [GraphicsOnly, PresentOnly, GraphicsAndPresent];
    assert SupportsGraphics(fs[0]) && !SupportsGraphics(fs[1]) && SupportsPresent(fs[1]);
    assert !SupportsPresent(fs[0]);
    assert StopsAt(fs, 1);
    ResultAtStop(fs, 1);
  }
}
