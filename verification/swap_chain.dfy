/** The swap-chain selection rules of the Vulkan renderer (vk_renderer.cpp):
    which surface format, present mode, extent, image count and sharing mode
    the swap chain is created with. Vulkan enumerations are their numeric
    values from the Vulkan specification; the queries that produce the inputs
    are left to the caller. */
module SwapChain {

  /** `std::numeric_limits<std::uint32_t>::max()`, the "extent decided by the
      swap chain" marker in `currentExtent.width`. */
  const U32_MAX: nat := 0xFFFF_FFFF
  const U32_MODULUS: nat := 0x1_0000_0000

  /** `VkFormat` values the rules mention. */
  const FORMAT_UNDEFINED: nat := 0
  const FORMAT_R8G8B8A8_UNORM: nat := 37

  /** `VkColorSpaceKHR`: `VK_COLOR_SPACE_SRGB_NONLINEAR_KHR`. */
  const COLOR_SPACE_SRGB_NONLINEAR: nat := 0

  /** `VkPresentModeKHR` values. */
  const PRESENT_MODE_IMMEDIATE: nat := 0
  const PRESENT_MODE_MAILBOX: nat := 1
  const PRESENT_MODE_FIFO: nat := 2

  datatype SurfaceFormat = SurfaceFormat(format: nat, colorSpace: nat)

  datatype Extent = Extent(width: nat, height: nat)

  /** The fields of `VkSurfaceCapabilitiesKHR` the rules read. */
  datatype Capabilities = Capabilities(
    minImageCount: nat,
    maxImageCount: nat,
    currentExtent: Extent,
    minImageExtent: Extent,
    maxImageExtent: Extent)

  /** `VK_SHARING_MODE_EXCLUSIVE`, or `VK_SHARING_MODE_CONCURRENT` with the
      queue family indices the images are shared between. */
  datatype SharingMode = Exclusive | Concurrent(familyIndices: seq<nat>)

  /** The format the renderer prefers: 8-bit RGBA in the sRGB colour space. */
  const PREFERRED: SurfaceFormat := SurfaceFormat(FORMAT_R8G8B8A8_UNORM, COLOR_SPACE_SRGB_NONLINEAR)

  /** A single `VK_FORMAT_UNDEFINED` entry: the surface takes any format. */
  predicate AnyFormat(formats: seq<SurfaceFormat>)
  {
    |formats| == 1 && formats[0].format == FORMAT_UNDEFINED
  }

  /** `choose_surface_format`: the preferred format when the surface takes any
      format or lists the preferred pair, otherwise the first listed format.
      The constructor asserts the list is non-empty before calling it. */
  method ChooseSurfaceFormat(formats: seq<SurfaceFormat>) returns (r: SurfaceFormat)
    requires |formats| > 0
    ensures AnyFormat(formats) ==> r == PREFERRED
    ensures !AnyFormat(formats) && PREFERRED in formats ==> r == PREFERRED
    ensures !AnyFormat(formats) && PREFERRED !in formats ==> r == formats[0]
    ensures r in formats || AnyFormat(formats)
  {
    if AnyFormat(formats) {
      return PREFERRED;
    }
    r := formats[0];
    var k := 0;
    while k < |formats|
      invariant 0 <= k <= |formats|
      invariant PREFERRED in formats[..k] ==> r == PREFERRED
      invariant PREFERRED !in formats[..k] ==> r == formats[0]
    {
      if formats[k].format == FORMAT_R8G8B8A8_UNORM && formats[k].colorSpace == COLOR_SPACE_SRGB_NONLINEAR {
        r := PREFERRED;
      }
      assert formats[..k + 1] == formats[..k] + [formats[k]];
      k := k + 1;
    }
    assert formats[..k] == formats;
  }

  /** Mailbox and immediate are the modes the renderer takes over FIFO. */
  predicate LowLatency(mode: nat)
  {
    mode == PRESENT_MODE_MAILBOX || mode == PRESENT_MODE_IMMEDIATE
  }

  /** The position of the last low-latency mode in `modes`, or -1. */
  function LastLowLatency(modes: seq<nat>): (k: int)
    ensures -1 <= k < |modes|
    ensures k >= 0 ==> LowLatency(modes[k])
    ensures forall j | k < j < |modes| :: !LowLatency(modes[j])
  {
    if modes == [] then -1
    else if LowLatency(modes[|modes| - 1]) then |modes| - 1
    else LastLowLatency(modes[..|modes| - 1])
  }

  /** `choose_present_mode`: FIFO (which every device supports) unless the list
      has a mailbox or immediate entry; then the last such entry wins. */
  method ChoosePresentMode(modes: seq<nat>) returns (r: nat)
    ensures var k := LastLowLatency(modes); r == if k < 0 then PRESENT_MODE_FIFO else modes[k]
  {
    r := PRESENT_MODE_FIFO;
    var k := 0;
    while k < |modes|
      invariant 0 <= k <= |modes|
      invariant var last := LastLowLatency(modes[..k]);
        r == if last < 0 then PRESENT_MODE_FIFO else modes[last]
    {
      if modes[k] == PRESENT_MODE_MAILBOX {
        r := PRESENT_MODE_MAILBOX;
      } else if modes[k] == PRESENT_MODE_IMMEDIATE {
        r := PRESENT_MODE_IMMEDIATE;
      }
      assert modes[..k + 1][..k] == modes[..k];
      k := k + 1;
    }
    assert modes[..k] == modes;
  }

  /** The present mode is FIFO exactly when no low-latency mode is offered,
      and otherwise a low-latency mode that is offered. */
  lemma PresentModeChoice(modes: seq<nat>)
    ensures var k := LastLowLatency(modes);
      var r := if k < 0 then PRESENT_MODE_FIFO else modes[k];
      && (r == PRESENT_MODE_FIFO <==> forall j | 0 <= j < |modes| :: !LowLatency(modes[j]))
      && (r != PRESENT_MODE_FIFO ==> LowLatency(r) && r in modes)
  {
  }

  /** `std::clamp(v, lo, hi)`, whose behaviour is undefined when `hi < lo`. */
  function Clamp(v: nat, lo: nat, hi: nat): (r: nat)
    requires lo <= hi
    ensures lo <= r <= hi
    ensures lo <= v <= hi ==> r == v
    ensures v < lo ==> r == lo
    ensures hi < v ==> r == hi
  {
    if v < lo then lo else if hi < v then hi else v
  }

  /** The bounds `std::clamp` needs when the swap chain decides the extent. */
  predicate ExtentBoundsOrdered(caps: Capabilities)
  {
    caps.currentExtent.width == U32_MAX ==>
      caps.minImageExtent.width <= caps.maxImageExtent.width
      && caps.minImageExtent.height <= caps.maxImageExtent.height
  }

  /** `choose_swap_extent`: the surface's current extent, unless its width is
      the `UINT32_MAX` marker; then the requested size, clamped per dimension
      into the supported range. */
  function ChooseSwapExtent(caps: Capabilities, width: nat, height: nat): (r: Extent)
    requires ExtentBoundsOrdered(caps)
    ensures caps.currentExtent.width != U32_MAX ==> r == caps.currentExtent
    ensures caps.currentExtent.width == U32_MAX ==>
      && caps.minImageExtent.width <= r.width <= caps.maxImageExtent.width
      && caps.minImageExtent.height <= r.height <= caps.maxImageExtent.height
    ensures caps.currentExtent.width == U32_MAX ==>
      && (width < caps.minImageExtent.width ==> r.width == caps.minImageExtent.width)
      && (caps.maxImageExtent.width < width ==> r.width == caps.maxImageExtent.width)
      && (height < caps.minImageExtent.height ==> r.height == caps.minImageExtent.height)
      && (caps.maxImageExtent.height < height ==> r.height == caps.maxImageExtent.height)
  {
    if caps.currentExtent.width != U32_MAX then caps.currentExtent
    else
      Extent(
        Clamp(width, caps.minImageExtent.width, caps.maxImageExtent.width),
        Clamp(height, caps.minImageExtent.height, caps.maxImageExtent.height))
  }

  /** A requested size inside the supported range is used unchanged, and
      choosing again from the chosen size gives the same extent. */
  lemma SwapExtentKeepsSupportedSize(caps: Capabilities, width: nat, height: nat)
    requires ExtentBoundsOrdered(caps) && caps.currentExtent.width == U32_MAX
    ensures caps.minImageExtent.width <= width <= caps.maxImageExtent.width
         && caps.minImageExtent.height <= height <= caps.maxImageExtent.height
         ==> ChooseSwapExtent(caps, width, height) == Extent(width, height)
    ensures var r := ChooseSwapExtent(caps, width, height);
      ChooseSwapExtent(caps, r.width, r.height) == r
  {
  }

  /** The image count: one more than the minimum, in 32-bit unsigned
      arithmetic, capped at the maximum when the surface has one (a maximum of
      zero means no limit). */
  function ImageCount(caps: Capabilities): (r: nat)
    ensures r < U32_MODULUS || r == caps.maxImageCount
    ensures caps.maxImageCount > 0 ==> r <= caps.maxImageCount
  {
    var count := (caps.minImageCount + 1) % U32_MODULUS;
    if caps.maxImageCount > 0 && count > caps.maxImageCount then caps.maxImageCount else count
  }

  /** Without wrap-around the count is one more than the minimum unless the
      maximum caps it, and it is never below the minimum the maximum allows. */
  lemma ImageCountBounds(caps: Capabilities)
    requires caps.minImageCount < U32_MAX
    ensures var r := ImageCount(caps);
      && (r == caps.minImageCount + 1 || r == caps.maxImageCount)
      && (caps.maxImageCount == 0 || caps.minImageCount < caps.maxImageCount ==> r == caps.minImageCount + 1)
      && (caps.maxImageCount > 0 ==> r == if caps.minImageCount < caps.maxImageCount then caps.minImageCount + 1 else caps.maxImageCount)
  {
  }

  /** A minimum of `UINT32_MAX` wraps the count to zero, which no maximum caps. */
  lemma ImageCountWrapsAtMax(caps: Capabilities)
    requires caps.minImageCount == U32_MAX
    ensures ImageCount(caps) == 0
  {
  }

  /** The sharing mode of the swap-chain images: concurrent between the
      graphics and present families when they differ, exclusive otherwise. */
  function ChooseSharingMode(graphics: nat, present: nat): (r: SharingMode)
    ensures r.Concurrent? <==> graphics != present
    ensures r.Concurrent? ==> |r.familyIndices| == 2
  {
    if graphics != present then Concurrent([graphics, present]) else Exclusive
  }

  /** The queue families that may use an image: the listed ones when shared,
      otherwise the family that owns it, the graphics one. */
  function AccessingFamilies(mode: SharingMode, owner: nat): set<nat>
  {
    match mode
    case Exclusive => {owner}
    case Concurrent(indices) => set k | k in indices
  }

  /** Both the graphics queue (which renders) and the present queue (which
      presents) can use the images, and no other family can. */
  lemma SharingCoversBothQueues(graphics: nat, present: nat)
    ensures AccessingFamilies(ChooseSharingMode(graphics, present), graphics) == {graphics, present}
  {
    var r := ChooseSharingMode(graphics, present);
    if graphics != present {
      assert r.familyIndices == [graphics, present];
      assert forall k :: k in r.familyIndices <==> k == graphics || k == present;
    }
  }
}
