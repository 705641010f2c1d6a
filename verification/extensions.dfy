/** checkDeviceExtensionSupport: an unsigned counter starts at the number of required
    names and is decremented once for every (available, required) pair whose names are
    equal; the check passes when the counter ends at zero. */
module Extensions {
  import opened VulkanTypes

  /** `requiredExtensionCount--` on an `unsigned int`: zero wraps to 2^32 - 1. */
  function Decrement(c: U32): (r: U32)
    ensures c > 0 ==> r == c - 1
    ensures c == 0 ==> r == U32Limit - 1
  {
    (c - 1) % U32Limit
  }

  /** The inner loop for one available name, over the required names in order. */
  function CountDownRequired(name: string, required: seq<string>, c: U32): U32 {
    if required == [] then c
    else CountDownRequired(name, required[1..], if name == required[0] then Decrement(c) else c)
  }

  /** The outer loop, over the available extensions in the order the driver lists them. */
  function CountDownAvailable(available: seq<ExtensionProperties>, required: seq<string>, c: U32): U32 {
    if available == [] then c
    else CountDownAvailable(available[1..], required, CountDownRequired(available[0].extensionName, required, c))
  }

  /** Number of (available, required) pairs with equal names. */
  function Matches(available: seq<ExtensionProperties>, required: seq<string>): nat {
    if available == [] then 0
    else multiset(required)[available[0].extensionName] + Matches(available[1..], required)
  }

  predicate Offers(available: seq<ExtensionProperties>, name: string) {
    exists j :: 0 <= j < |available| && available[j].extensionName == name
  }

  predicate OffersAll(available: seq<ExtensionProperties>, required: seq<string>) {
    forall k :: 0 <= k < |required| ==> Offers(available, required[k])
  }

  /** No extension name is listed twice. */
  predicate DistinctNames(available: seq<ExtensionProperties>) {
    forall i, j :: 0 <= i < j < |available| ==> available[i].extensionName != available[j].extensionName
  }

  /** checkDeviceExtensionSupport. Its inner loop runs an `unsigned int` index up to the
      required list's size, so a list of 2^32 names or more would never finish. The
      result is "the number of name matches equals the number of required names, modulo
      2^32"; when the driver lists every name once, that is exactly "every required name
      is offered". */
  function CheckDeviceExtensionSupport(available: seq<ExtensionProperties>, required: seq<string>): (r: bool)
    requires |required| < U32Limit
    ensures r <==> (|required| - Matches(available, required)) % U32Limit == 0
    ensures DistinctNames(available) ==> (r <==> OffersAll(available, required))
  {
    CountDownAvailableValue(available, required, |required|);
    CounterExactWhenDistinct(available, required);
    CountDownAvailable(available, required, |required|) == 0
  }

  /** With every name listed once, the counter cannot wrap, and it reaches zero exactly
      when every required name is offered. */
  lemma CounterExactWhenDistinct(available: seq<ExtensionProperties>, required: seq<string>)
    requires |required| < U32Limit
    ensures DistinctNames(available) ==>
              ((|required| - Matches(available, required)) % U32Limit == 0 <==> OffersAll(available, required))
  {
    if DistinctNames(available) {
      MatchesCountsOffered(available, required);
      CountOfferedBounds(available, required);
      var unmatched := |required| - Matches(available, required);
      assert 0 <= unmatched < U32Limit;
      assert unmatched % U32Limit == unmatched;
    }
  }

  /** Subtracting after a reduction modulo 2^32 is the same as reducing afterwards. */
  lemma ModSub(a: int, b: int)
    ensures (a % U32Limit - b) % U32Limit == (a - b) % U32Limit
  {
    var q := a / U32Limit;
    assert a == q * U32Limit + a % U32Limit;
    assert a - b == (a % U32Limit - b) + q * U32Limit;
  }

  /** The inner loop subtracts, modulo 2^32, the number of required entries equal to `name`. */
  lemma {:induction false} CountDownRequiredValue(name: string, required: seq<string>, c: U32)
    ensures CountDownRequired(name, required, c) == (c - multiset(required)[name]) % U32Limit
  {
    if required != [] {
      assert required == [required[0]] + required[1..];
      var c' := if name == required[0] then Decrement(c) else c;
      CountDownRequiredValue(name, required[1..], c');
      if name == required[0] {
        ModSub(c - 1, multiset(required[1..])[name]);
      }
    }
  }

  /** Both loops together subtract, modulo 2^32, the number of matching pairs. */
  lemma {:induction false} CountDownAvailableValue(available: seq<ExtensionProperties>, required: seq<string>, c: U32)
    ensures CountDownAvailable(available, required, c) == (c - Matches(available, required)) % U32Limit
  {
    if available != [] {
      var name := available[0].extensionName;
      CountDownRequiredValue(name, required, c);
      var c' := CountDownRequired(name, required, c);
      CountDownAvailableValue(available[1..], required, c');
      ModSub(c - multiset(required)[name], Matches(available[1..], required));
    }
  }

  /** How many available entries carry `name`. */
  function Occurrences(available: seq<ExtensionProperties>, name: string): (r: nat)
    ensures r == 0 <==> !Offers(available, name)
  {
    if available == [] then 0
    else (if available[0].extensionName == name then 1 else 0) + Occurrences(available[1..], name)
  }

  /** How many required entries are offered. */
  function CountOffered(available: seq<ExtensionProperties>, required: seq<string>): nat {
    if required == [] then 0
    else CountOffered(available, required[..|required| - 1])
         + (if Offers(available, required[|required| - 1]) then 1 else 0)
  }

  lemma {:induction false} CountOfferedBounds(available: seq<ExtensionProperties>, required: seq<string>)
    ensures CountOffered(available, required) <= |required|
    ensures CountOffered(available, required) == |required| <==> OffersAll(available, required)
  {
    if required != [] {
      var init := required[..|required| - 1];
      CountOfferedBounds(available, init);
      if OffersAll(available, required) {
        assert OffersAll(available, init) by {
          forall k | 0 <= k < |init| ensures Offers(available, init[k]) {
            assert init[k] == required[k];
          }
        }
      }
      if CountOffered(available, required) == |required| {
        forall k | 0 <= k < |required| ensures Offers(available, required[k]) {
          if k < |init| {
            assert init[k] == required[k];
          }
        }
      }
    }
  }

  lemma {:induction false} MatchesNoRequired(available: seq<ExtensionProperties>)
    ensures Matches(available, []) == 0
  {
    if available != [] {
      MatchesNoRequired(available[1..]);
    }
  }

  /** One more required name adds one match per available entry that carries it. */
  lemma {:induction false} MatchesAppendRequired(available: seq<ExtensionProperties>, required: seq<string>, x: string)
    ensures Matches(available, required + [x]) == Matches(available, required) + Occurrences(available, x)
  {
    if available != [] {
      assert multiset(required + [x]) == multiset(required) + multiset{x};
      MatchesAppendRequired(available[1..], required, x);
    }
  }

  lemma {:induction false} OccurrencesAtMostOne(available: seq<ExtensionProperties>, name: string)
    requires DistinctNames(available)
    ensures Occurrences(available, name) == if Offers(available, name) then 1 else 0
  {
    if available != [] {
      var rest := available[1..];
      assert DistinctNames(rest) by {
        forall i, j | 0 <= i < j < |rest| ensures rest[i].extensionName != rest[j].extensionName {
          assert rest[i] == available[i + 1] && rest[j] == available[j + 1];
        }
      }
      OccurrencesAtMostOne(rest, name);
      if available[0].extensionName == name {
        assert !Offers(rest, name) by {
          forall j | 0 <= j < |rest| ensures rest[j].extensionName != name {
            assert rest[j] == available[j + 1];
          }
        }
      } else {
        if Offers(available, name) {
          var j :| 0 <= j < |available| && available[j].extensionName == name;
          assert rest[j - 1] == available[j];
        }
        if Offers(rest, name) {
          var j :| 0 <= j < |rest| && rest[j].extensionName == name;
          assert available[j + 1] == rest[j];
        }
      }
    }
  }

  /** With every name listed once, the matching pairs are the offered required entries. */
  lemma {:induction false} MatchesCountsOffered(available: seq<ExtensionProperties>, required: seq<string>)
    requires DistinctNames(available)
    ensures Matches(available, required) == CountOffered(available, required)
  {
    if required == [] {
      MatchesNoRequired(available);
    } else {
      var init := required[..|required| - 1];
      var x := required[|required| - 1];
      assert required == init + [x];
      MatchesCountsOffered(available, init);
      MatchesAppendRequired(available, init, x);
      OccurrencesAtMostOne(available, x);
    }
  }

  /** A driver listing one name twice can make the check pass although a required
      extension is missing ... */
  lemma DuplicateListingPassesMissingExtension()
    ensures var sc := ExtensionProperties("VK_KHR_swapchain");
            var required := ["VK_KHR_swapchain", "VK_KHR_maintenance1"];
            && !OffersAll([sc, sc], required)
            && CheckDeviceExtensionSupport([sc, sc], required)
  {
    var sc := ExtensionProperties("VK_KHR_swapchain");
    var required := ["VK_KHR_swapchain", "VK_KHR_maintenance1"];
    assert multiset(required)["VK_KHR_swapchain"] == 1;
    assert [sc, sc][1..] == [sc] && [sc][1..] == [];
    assert Matches([sc], required) == 1;
    assert Matches([sc, sc], required) == 2;
    assert !Offers([sc, sc], "VK_KHR_maintenance1");
  }

  /** ... and fail although every required extension is offered, because the counter
      wraps below zero. */
  lemma DuplicateListingRejectsOfferedExtension()
    ensures var sc := ExtensionProperties("VK_KHR_swapchain");
            && OffersAll([sc, sc], ["VK_KHR_swapchain"])
            && !CheckDeviceExtensionSupport([sc, sc], ["VK_KHR_swapchain"])
  {
    var sc := ExtensionProperties("VK_KHR_swapchain");
    assert multiset(["VK_KHR_swapchain"])["VK_KHR_swapchain"] == 1;
    assert [sc, sc][1..] == [sc] && [sc][1..] == [];
    assert Matches([sc], ["VK_KHR_swapchain"]) == 1;
    assert Matches([sc, sc], ["VK_KHR_swapchain"]) == 2;
    assert [sc, sc][0].extensionName == "VK_KHR_swapchain";
  }
}
