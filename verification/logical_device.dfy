/** Application::logicalDeviceInit: the queue requests, the checks in their fixed order,
    device creation and the two queue lookups. */
module LogicalDevice {
  import opened Wrappers
  import opened VulkanTypes
  import opened QueueFamilies
  import Extensions

  /** VkDeviceQueueCreateInfo without the priority pointer. */
  datatype QueueCreateInfo = QueueCreateInfo(queueFamilyIndex: nat, queueCount: nat)

  /** A queue handle as `vkGetDeviceQueue` names it: family index and queue index. */
  datatype DeviceQueue = DeviceQueue(familyIndex: nat, queueIndex: nat)

  /** The created logical device: what was asked for and the two fetched queues. */
  datatype Device = Device(
    queueCreateInfos: seq<QueueCreateInfo>,
    enabledExtensions: seq<string>,
    graphicsQueue: DeviceQueue,
    presentQueue: DeviceQueue)

  /** VK_KHR_SWAPCHAIN_EXTENSION_NAME */
  const SwapchainExtensionName: string := "VK_KHR_swapchain"

  /** The one device extension the code enables. */
  const DeviceExtensions: seq<string> := [SwapchainExtensionName]

  /** The family indices a list of requests asks for. */
  function RequestedFamilies(infos: seq<QueueCreateInfo>): set<nat> {
    set k | 0 <= k < |infos| :: infos[k].queueFamilyIndex
  }

  /** One request per element of the `std::set` of the two family indices, in the set's
      ascending order, each for a single queue. */
  function UniqueQueueCreateInfos(indices: QueueFamilyIndices): (r: seq<QueueCreateInfo>)
    requires indices.IsComplete()
    ensures var g, p := indices.graphicsFamily.value, indices.presentFamily.value;
            && RequestedFamilies(r) == {g, p}
            && |r| == |{g, p}|
    ensures forall k :: 0 <= k < |r| ==> r[k].queueCount == 1
    ensures forall j, k :: 0 <= j < k < |r| ==> r[j].queueFamilyIndex < r[k].queueFamilyIndex
  {
    var g, p := indices.graphicsFamily.value, indices.presentFamily.value;
    RequestedFamiliesOfRequests(g, p);
    if g == p then [QueueCreateInfo(g, 1)]
    else if g < p then [QueueCreateInfo(g, 1), QueueCreateInfo(p, 1)]
    else [QueueCreateInfo(p, 1), QueueCreateInfo(g, 1)]
  }

  lemma RequestedFamiliesOfRequests(a: nat, b: nat)
    ensures RequestedFamilies([QueueCreateInfo(a, 1)]) == {a}
    ensures RequestedFamilies([QueueCreateInfo(a, 1), QueueCreateInfo(b, 1)]) == {a, b}
    ensures RequestedFamilies([QueueCreateInfo(b, 1), QueueCreateInfo(a, 1)]) == {a, b}
  {
    var one := [QueueCreateInfo(a, 1)];
    assert one[0].queueFamilyIndex == a;
    var ab := [QueueCreateInfo(a, 1), QueueCreateInfo(b, 1)];
    assert ab[0].queueFamilyIndex == a && ab[1].queueFamilyIndex == b;
    var ba := [QueueCreateInfo(b, 1), QueueCreateInfo(a, 1)];
    assert ba[0].queueFamilyIndex == b && ba[1].queueFamilyIndex == a;
  }

  /** The swap-chain adequacy test: at least one format and one present mode. */
  predicate SwapChainAdequate(support: SwapChainSupportDetails) {
    |support.formats| > 0 && |support.presentModes| > 0
  }

  /** The errors logicalDeviceInit can end with. */
  predicate DeviceStageError(e: InitError) {
    e.IncompleteQueueFamilies? || e.MissingSwapchainExtension? || e.InadequateSwapChain? || e.DeviceCreationFailed?
  }

  /** logicalDeviceInit for the selected device. `createSucceeds` is the outcome of
      `vkCreateDevice`. The failures come in the code's order: an unset family index
      (`.value()` throws), then a missing swap-chain extension, then an inadequate
      surface, then device creation. */
  function LogicalDeviceInit(device: PhysicalDevice, createSucceeds: bool): (r: Result<Device, InitError>)
    ensures var families := device.queueFamilies;
            r == Failure(IncompleteQueueFamilies) <==> !ReadyBy(families, |families|)
    ensures var families := device.queueFamilies;
            r == Failure(MissingSwapchainExtension) <==>
              && ReadyBy(families, |families|)
              && !Extensions.CheckDeviceExtensionSupport(device.extensions, DeviceExtensions)
    ensures var families := device.queueFamilies;
            r == Failure(InadequateSwapChain) <==>
              && ReadyBy(families, |families|)
              && Extensions.CheckDeviceExtensionSupport(device.extensions, DeviceExtensions)
              && !SwapChainAdequate(device.surfaceSupport)
    ensures var families := device.queueFamilies;
            r == Failure(DeviceCreationFailed) <==>
              && ReadyBy(families, |families|)
              && Extensions.CheckDeviceExtensionSupport(device.extensions, DeviceExtensions)
              && SwapChainAdequate(device.surfaceSupport)
              && !createSucceeds
    ensures r.Failure? ==> DeviceStageError(r.error)
    ensures r.Success? ==>
              var indices := FindQueueFamilies(device.queueFamilies);
              && indices.IsComplete()
              && SwapChainAdequate(device.surfaceSupport)
              && r.value.graphicsQueue == DeviceQueue(indices.graphicsFamily.value, 0)
              && r.value.presentQueue == DeviceQueue(indices.presentFamily.value, 0)
              && r.value.queueCreateInfos == UniqueQueueCreateInfos(indices)
              && r.value.enabledExtensions == DeviceExtensions
  {
    var indices := FindQueueFamilies(device.queueFamilies);
    if !indices.IsComplete() then Failure(IncompleteQueueFamilies)
    else
      var infos := UniqueQueueCreateInfos(indices);
      if !Extensions.CheckDeviceExtensionSupport(device.extensions, DeviceExtensions) then
        Failure(MissingSwapchainExtension)
      else if !SwapChainAdequate(device.surfaceSupport) then
        Failure(InadequateSwapChain)
      else if !createSucceeds then
        Failure(DeviceCreationFailed)
      else
        Success(Device(
          infos,
          DeviceExtensions,
          DeviceQueue(indices.graphicsFamily.value, 0),
          DeviceQueue(indices.presentFamily.value, 0)))
  }

  /** When the driver lists each extension once, the extension failure means exactly that
      the swap-chain extension is not offered. */
  lemma MissingExtensionMeansNotOffered(device: PhysicalDevice, createSucceeds: bool)
    requires Extensions.DistinctNames(device.extensions)
    requires ReadyBy(device.queueFamilies, |device.queueFamilies|)
    ensures LogicalDeviceInit(device, createSucceeds) == Failure(MissingSwapchainExtension)
            <==> !Extensions.Offers(device.extensions, SwapchainExtensionName)
  {
    assert Extensions.OffersAll(device.extensions, DeviceExtensions)
           <==> Extensions.Offers(device.extensions, SwapchainExtensionName) by {
      assert DeviceExtensions[0] == SwapchainExtensionName;
    }
  }

  /** Graphics and present on the same family give one request, on different families
      two; in both cases every used family is requested and fetched from. */
  lemma QueueRequestsCoverFetchedQueues(device: PhysicalDevice, createSucceeds: bool)
    requires LogicalDeviceInit(device, createSucceeds).Success?
    ensures var ld := LogicalDeviceInit(device, createSucceeds).value;
            var families := RequestedFamilies(ld.queueCreateInfos);
            && ld.graphicsQueue.familyIndex in families
            && ld.presentQueue.familyIndex in families
            && |ld.queueCreateInfos| == (if ld.graphicsQueue.familyIndex == ld.presentQueue.familyIndex then 1 else 2)
            && ld.graphicsQueue.familyIndex < |device.queueFamilies|
            && ld.presentQueue.familyIndex < |device.queueFamilies|
  {
    var indices := FindQueueFamilies(device.queueFamilies);
    var infos := UniqueQueueCreateInfos(indices);
    var ld := LogicalDeviceInit(device, createSucceeds).value;
    assert ld.queueCreateInfos == infos;
  }
}
