/** The Vulkan values the bootstrap code reads, as immutable records. Enumerants the
    code compares against keep their numeric codes from the Vulkan headers, so values
    it does not name (extension formats, vendor present modes) still have a
    representation. Everything the driver reports about a device is a field of
    `PhysicalDevice`: the model never calls the driver. */
module VulkanTypes {

  const U32Limit: int := 0x1_0000_0000

  /** `uint32_t`. */
  type U32 = x: int | 0 <= x < 0x1_0000_0000

  /** C++ `int` on the targets the code is built for. */
  type I32 = x: int | -0x8000_0000 <= x < 0x8000_0000

  /** `static_cast<uint32_t>` applied to an `int`: reduction modulo 2^32, so a
      negative value wraps to a large unsigned one. */
  function ToU32(x: I32): (r: U32)
    ensures 0 <= x ==> r == x
    ensures x < 0 ==> r == x + U32Limit
  {
    x % U32Limit
  }

  // VkFormat and VkColorSpaceKHR
  type Format = nat
  type ColorSpace = nat
  const FormatR8G8B8A8Srgb: Format := 43
  const ColorSpaceSrgbNonlinear: ColorSpace := 0

  /** VkSurfaceFormatKHR */
  datatype SurfaceFormat = SurfaceFormat(format: Format, colorSpace: ColorSpace)

  // VkPresentModeKHR
  type PresentMode = nat
  const PresentModeMailbox: PresentMode := 1
  const PresentModeFifo: PresentMode := 2

  /** VkExtent2D */
  datatype Extent2D = Extent2D(width: U32, height: U32)

  /** VkSurfaceCapabilitiesKHR, restricted to the extent limits `chooseSwapExtent` reads. */
  datatype SurfaceCapabilities = SurfaceCapabilities(minImageExtent: Extent2D, maxImageExtent: Extent2D)

  /** The per-axis ordering of the extent limits, which the Vulkan specification
      guarantees for every surface and `std::clamp` relies on. */
  predicate ExtentLimitsOrdered(caps: SurfaceCapabilities) {
    && caps.minImageExtent.width <= caps.maxImageExtent.width
    && caps.minImageExtent.height <= caps.maxImageExtent.height
  }

  /** SwapChainSupportDetails: the capabilities plus the surface formats and present
      modes, each in the order the driver lists them. */
  datatype SwapChainSupportDetails = SwapChainSupportDetails(
    capabilities: SurfaceCapabilities,
    formats: seq<SurfaceFormat>,
    presentModes: seq<PresentMode>)

  /** VkPhysicalDeviceType */
  datatype PhysicalDeviceType = Other | IntegratedGpu | DiscreteGpu | VirtualGpu | Cpu

  /** The part of VkPhysicalDeviceProperties the suitability test reads. */
  datatype PhysicalDeviceProperties = PhysicalDeviceProperties(deviceType: PhysicalDeviceType)

  /** The part of VkPhysicalDeviceFeatures the code reads. */
  datatype PhysicalDeviceFeatures = PhysicalDeviceFeatures(geometryShader: bool)

  // VkQueueFlags
  type QueueFlags = bv32
  const QueueGraphicsBit: QueueFlags := 0x1

  /** One queue family as the scan sees it: its VkQueueFamilyProperties flags, plus the
      answer the surface-support query gives for its index. */
  datatype QueueFamily = QueueFamily(queueFlags: QueueFlags, presentSupport: bool)

  /** VkExtensionProperties, restricted to the name the extension check compares. */
  datatype ExtensionProperties = ExtensionProperties(extensionName: string)

  /** A physical device together with every answer the driver gives about it and the
      application's one window surface. */
  datatype PhysicalDevice = PhysicalDevice(
    properties: PhysicalDeviceProperties,
    features: PhysicalDeviceFeatures,
    queueFamilies: seq<QueueFamily>,
    extensions: seq<ExtensionProperties>,
    surfaceSupport: SwapChainSupportDetails)

  /** The failures `Application::init` can end with, one per `throw` in the code, plus the
      `std::bad_optional_access` that `.value()` throws on an unset index. */
  datatype InitError =
    | InstanceCreationFailed
    | NoSuitableDevice
    | VulkanUnsupported
    | SurfaceCreationFailed
    | IncompleteQueueFamilies
    | MissingSwapchainExtension
    | InadequateSwapChain
    | DeviceCreationFailed
}
