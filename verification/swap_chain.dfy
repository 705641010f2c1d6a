/** The three choices `swapChainInit` makes from a surface's support details: the
    surface format, the present mode and the image extent. */
module SwapChain {
  import opened Wrappers
  import opened VulkanTypes
  import Seqs

  /** The pair the code asks for: 8-bit RGBA in sRGB with the non-linear sRGB colour space. */
  const PreferredFormat: SurfaceFormat := SurfaceFormat(FormatR8G8B8A8Srgb, ColorSpaceSrgbNonlinear)

  predicate IsPreferredFormat(f: SurfaceFormat) {
    f.format == FormatR8G8B8A8Srgb && f.colorSpace == ColorSpaceSrgbNonlinear
  }

  predicate OffersPreferredFormat(formats: seq<SurfaceFormat>) {
    exists j :: 0 <= j < |formats| && IsPreferredFormat(formats[j])
  }

  /** chooseSwapSurfaceFormat: the preferred pair wherever it occurs in the list,
      otherwise the first format listed. The code indexes `[0]`, so the list must not
      be empty. */
  function ChooseSwapSurfaceFormat(formats: seq<SurfaceFormat>): (r: SurfaceFormat)
    requires |formats| > 0
    ensures r in formats
    ensures OffersPreferredFormat(formats) ==> r == PreferredFormat
    ensures !OffersPreferredFormat(formats) ==> r == formats[0]
  {
    match Seqs.FirstMatch(formats, IsPreferredFormat, 0)
    case Some(i) => formats[i]
    case None => formats[0]
  }

  /** chooseSwapPresentMode: mailbox when the list offers it, FIFO otherwise. FIFO is
      not looked up, because the Vulkan specification requires every surface to
      support it; an empty list therefore still yields FIFO. */
  function ChooseSwapPresentMode(modes: seq<PresentMode>): (r: PresentMode)
    ensures r == PresentModeMailbox <==> PresentModeMailbox in modes
    ensures r != PresentModeMailbox ==> r == PresentModeFifo
  {
    match Seqs.FirstMatch(modes, (m: PresentMode) => m == PresentModeMailbox, 0)
    case Some(i) => modes[i]
    case None => PresentModeFifo
  }

  /** `std::clamp(v, lo, hi)`, which is undefined unless `lo <= hi`. */
  function Clamp(v: U32, lo: U32, hi: U32): (r: U32)
    requires lo <= hi
    ensures lo <= r <= hi
    ensures lo <= v <= hi ==> r == v
    ensures v < lo ==> r == lo
    ensures hi < v ==> r == hi
  {
    if v < lo then lo else if hi < v then hi else v
  }

  predicate WithinExtentLimits(e: Extent2D, caps: SurfaceCapabilities) {
    && caps.minImageExtent.width <= e.width <= caps.maxImageExtent.width
    && caps.minImageExtent.height <= e.height <= caps.maxImageExtent.height
  }

  /** chooseSwapExtent: the framebuffer size, cast from `int` to `uint32_t`, clamped on
      each axis independently into the surface's extent limits. */
  function ChooseSwapExtent(caps: SurfaceCapabilities, width: I32, height: I32): (r: Extent2D)
    requires ExtentLimitsOrdered(caps)
    ensures WithinExtentLimits(r, caps)
    ensures WithinExtentLimits(Extent2D(ToU32(width), ToU32(height)), caps) ==>
              r == Extent2D(ToU32(width), ToU32(height))
    ensures ToU32(width) < caps.minImageExtent.width ==> r.width == caps.minImageExtent.width
    ensures caps.maxImageExtent.width < ToU32(width) ==> r.width == caps.maxImageExtent.width
    ensures ToU32(height) < caps.minImageExtent.height ==> r.height == caps.minImageExtent.height
    ensures caps.maxImageExtent.height < ToU32(height) ==> r.height == caps.maxImageExtent.height
  {
    var actual := Extent2D(ToU32(width), ToU32(height));
    Extent2D(
      Clamp(actual.width, caps.minImageExtent.width, caps.maxImageExtent.width),
      Clamp(actual.height, caps.minImageExtent.height, caps.maxImageExtent.height))
  }

  /** The locals `swapChainInit` computes. */
  datatype SwapChoice = SwapChoice(surfaceFormat: SurfaceFormat, presentMode: PresentMode, extent: Extent2D)

  /** swapChainInit: the three choices from one support snapshot and the framebuffer size.
      The code stops there; nothing is created from them. */
  function SwapChainInit(support: SwapChainSupportDetails, width: I32, height: I32): (r: SwapChoice)
    requires |support.formats| > 0
    requires ExtentLimitsOrdered(support.capabilities)
    ensures r.surfaceFormat in support.formats
    ensures OffersPreferredFormat(support.formats) ==> r.surfaceFormat == PreferredFormat
    ensures !OffersPreferredFormat(support.formats) ==> r.surfaceFormat == support.formats[0]
    ensures r.presentMode == PresentModeMailbox <==> PresentModeMailbox in support.presentModes
    ensures r.presentMode != PresentModeMailbox ==> r.presentMode == PresentModeFifo
    ensures WithinExtentLimits(r.extent, support.capabilities)
    ensures var caps := support.capabilities;
            WithinExtentLimits(Extent2D(ToU32(width), ToU32(height)), caps) ==>
              r.extent == Extent2D(ToU32(width), ToU32(height))
    ensures var caps := support.capabilities;
            && (ToU32(width) < caps.minImageExtent.width ==> r.extent.width == caps.minImageExtent.width)
            && (caps.maxImageExtent.width < ToU32(width) ==> r.extent.width == caps.maxImageExtent.width)
            && (ToU32(height) < caps.minImageExtent.height ==> r.extent.height == caps.minImageExtent.height)
            && (caps.maxImageExtent.height < ToU32(height) ==> r.extent.height == caps.maxImageExtent.height)
  {
    SwapChoice(
      ChooseSwapSurfaceFormat(support.formats),
      ChooseSwapPresentMode(support.presentModes),
      ChooseSwapExtent(support.capabilities, width, height))
  }

  /** Where the preferred pair sits in the list does not matter, and neither does the
      order of the other entries. */
  lemma PreferredFormatPositionIrrelevant(a: seq<SurfaceFormat>, b: seq<SurfaceFormat>)
    requires |a| > 0 && |b| > 0
    requires PreferredFormat in a && multiset(a) == multiset(b)
    ensures ChooseSwapSurfaceFormat(a) == ChooseSwapSurfaceFormat(b) == PreferredFormat
  {
    assert PreferredFormat in multiset(b);
    var i :| 0 <= i < |a| && a[i] == PreferredFormat;
    var k :| 0 <= k < |b| && b[k] == PreferredFormat;
    assert IsPreferredFormat(a[i]) && IsPreferredFormat(b[k]);
  }

  /** Without the preferred pair, the choice is exactly the head of the list: a
      reordering can change it. */
  lemma FallbackFormatIsHead(formats: seq<SurfaceFormat>, f: SurfaceFormat)
    requires !OffersPreferredFormat(formats) && !IsPreferredFormat(f)
    ensures ChooseSwapSurfaceFormat([f] + formats) == f
  {
    var s := [f] + formats;
    forall j | 0 <= j < |s|
      ensures !IsPreferredFormat(s[j])
    {
      if j > 0 {
        assert s[j] == formats[j - 1];
      }
    }
  }

  /** Whenever the list also offers FIFO, as every conforming driver's does, the chosen
      present mode is one the surface supports. */
  lemma ChosenPresentModeSupported(modes: seq<PresentMode>)
    requires PresentModeFifo in modes
    ensures ChooseSwapPresentMode(modes) in modes
  {
  }

  /** Choosing again from the chosen extent changes nothing. */
  lemma ChooseSwapExtentIdempotent(caps: SurfaceCapabilities, width: I32, height: I32)
    requires ExtentLimitsOrdered(caps)
    requires caps.maxImageExtent.width < 0x8000_0000 && caps.maxImageExtent.height < 0x8000_0000
    ensures var e := ChooseSwapExtent(caps, width, height);
            ChooseSwapExtent(caps, e.width, e.height) == e
  {
  }

  /** Limits (100,100)..(800,600) and a request of (50,900) give (100,600): each axis
      is clamped on its own. */
  lemma ChooseSwapExtentExample()
    ensures var caps := SurfaceCapabilities(Extent2D(100, 100), Extent2D(800, 600));
            ChooseSwapExtent(caps, 50, 900) == Extent2D(100, 600)
  {
  }

  /** A negative framebuffer width wraps to a huge unsigned value in the cast, so it is
      clamped to the maximum width, not the minimum. */
  lemma NegativeWidthClampsToMaximum(caps: SurfaceCapabilities, width: I32, height: I32)
    requires ExtentLimitsOrdered(caps)
    requires width < 0 && caps.maxImageExtent.width < 0x8000_0000
    ensures ChooseSwapExtent(caps, width, height).width == caps.maxImageExtent.width
  {
  }
}
