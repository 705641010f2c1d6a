# Vulkan bootstrap core, modelled in Dafny

This project models the decision logic `src/app.cpp` runs while it brings up Vulkan. It covers:

- the surface format, present mode and framebuffer extent chosen for the swap chain;
- the physical-device suitability test and the first-suitable selection loop;
- the queue-family scan, which stops early and overwrites as it goes;
- the counting check for device extensions, with its unsigned counter;
- `logicalDeviceInit`: one queue request per distinct family, then a fixed order of checks, then the two queues it fetches;
- the order of creation in `Application::init` and the order of release in `Application::~Application`.

The model does not call the Vulkan driver or GLFW. Whatever they would answer becomes a plain input:

- a `PhysicalDevice` record holds the properties, features, queue families (each with its surface-present answer), extension list and surface support snapshot;
- a `Platform` record holds the success of the create calls, the enumerated devices, the GLFW Vulkan check and the framebuffer size.

Modules, one per file:

| module | file | contents |
|---|---|---|
| `Wrappers` | wrappers.dfy | `Option`, `Result` |
| `Seqs` | seqs.dfy | generic first-match and last-match scans with their contracts |
| `VulkanTypes` | vulkan_types.dfy | the records the driver reports, enumerant codes, `uint32_t` conversion, error kinds |
| `SwapChain` | swap_chain.dfy | `chooseSwapSurfaceFormat`, `chooseSwapPresentMode`, `chooseSwapExtent`, `swapChainInit` |
| `Extensions` | extensions.dfy | `checkDeviceExtensionSupport` |
| `DeviceSelection` | device_selection.dfy | `isDeviceSuitable`, the loop in `physicalDeviceInit` |
| `QueueFamilies` | queue_families.dfy | `QueueFamilyIndices`, `findQueueFamilies` |
| `LogicalDevice` | logical_device.dfy | `logicalDeviceInit` |
| `Bootstrap` | bootstrap.dfy | `init`, `~Application`, object lifetimes |

Enumerants are numeric codes with the values of the Vulkan headers:

- `VK_FORMAT_R8G8B8A8_SRGB` = 43;
- `VK_COLOR_SPACE_SRGB_NONLINEAR_KHR` = 0;
- `VK_PRESENT_MODE_MAILBOX_KHR` = 1;
- `VK_PRESENT_MODE_FIFO_KHR` = 2;
- `VK_QUEUE_GRAPHICS_BIT` = 0x1, kept as a `bv32` mask.

Each `throw` in the code becomes a `Failure` carrying an `InitError`. A `.value()` on an empty `std::optional` throws `bad_optional_access`, so it becomes the error `IncompleteQueueFamilies`.

### Behaviour worth noting

- **Queue-family scan.** `findQueueFamilies` keeps the last capable index, not the first. It assigns each field on every matching family until both are set (src/app.cpp:134-141).
- **A family that supports both.** One family supporting both graphics and present does not mean both fields name it. In `[graphics-only, present-only, graphics+present]`, the scan stops at index 1 with (0, 1), before it reaches the family that supports both (`QueueFamilies.SplitFamiliesBeforeDualFamilyWin`). Both fields name that family only when it is where the scan stops (`QueueFamilies.DualFamilyAtStopTakesBoth`).
- **Extension check.** `checkDeviceExtensionSupport` equals "every required name is available" only when the driver lists each name once. It counts matches; it does not test membership.

## Model

| member | source | states |
|---|---|---|
| Seqs.FirstMatch | src/app.cpp:79-83 | The scan returns the earliest index at or after the start that satisfies the predicate. Every earlier index fails it. A missing result means no index satisfies it. |
| Seqs.LastMatch | src/app.cpp:134-139 | An overwriting scan keeps the latest index below the bound that satisfies the predicate. Every later index fails it. A missing result means no index below the bound satisfies it. |
| VulkanTypes.ToU32 | src/app.cpp:97-100 | `static_cast<uint32_t>` of an `int` keeps a non-negative value and adds 2^32 to a negative one. |
| SwapChain.ChooseSwapSurfaceFormat | src/app.cpp:78-85 | The result comes from the list. It is the R8G8B8A8_SRGB / SRGB_NONLINEAR pair when the list contains that pair anywhere, and entry 0 otherwise. The list must be non-empty because entry 0 is read. |
| SwapChain.PreferredFormatPositionIrrelevant | src/app.cpp:79-83 | Reordering a list that contains the preferred pair does not change the choice: it is always the preferred pair. |
| SwapChain.FallbackFormatIsHead | src/app.cpp:84 | If no entry is preferred, the choice is whatever entry comes first. |
| SwapChain.ChooseSwapPresentMode | src/app.cpp:87-93 | The result is MAILBOX exactly when MAILBOX is offered, and FIFO otherwise. This holds for an empty list too. |
| SwapChain.ChosenPresentModeSupported | src/app.cpp:87-93 | If FIFO is offered, as the Vulkan specification requires of every surface, the chosen mode is one the surface offers. |
| SwapChain.Clamp | src/app.cpp:102-103 | `std::clamp` with lo ≤ hi gives a value in [lo, hi]. It is the input when the input is in range, lo below the range and hi above it. |
| SwapChain.ChooseSwapExtent | src/app.cpp:95-106 | Each axis is clamped on its own into [minImageExtent, maxImageExtent] after the cast to `uint32_t`. A request already within the limits comes back unchanged. A request outside them gives the violated bound on that axis. |
| SwapChain.ChooseSwapExtentIdempotent | src/app.cpp:95-106 | Feeding a chosen extent back in gives the same extent, whenever the limits fit in an `int`. |
| SwapChain.ChooseSwapExtentExample | src/app.cpp:102-103 | With limits (100,100)-(800,600), a request of (50, 900) gives (100, 600): each axis goes to its own bound. |
| SwapChain.NegativeWidthClampsToMaximum | src/app.cpp:97-102 | When the maximum width is below 2^31, a negative framebuffer width wraps to an unsigned value above it, so it clamps to the maximum width and not the minimum. |
| SwapChain.SwapChainInit | src/app.cpp:251-257 | From one support snapshot and the framebuffer size, the format is the preferred pair when the surface offers it and the first offered format otherwise. The present mode is MAILBOX exactly when offered, and FIFO otherwise. The extent is the framebuffer size cast to `uint32_t` and clamped on each axis: unchanged when within the limits, the violated bound otherwise. |
| Extensions.Decrement | src/app.cpp:72 | `unsigned int` decrement: subtracts one from a positive count and wraps 0 to 2^32 - 1. |
| Extensions.CountDownRequired | src/app.cpp:69-73 | The inner loop: one wrapping decrement per required entry equal to the available name. Its value is pinned by `Extensions.CountDownRequiredValue`. |
| Extensions.CountDownAvailable | src/app.cpp:68-73 | The outer loop: the inner loop run for each available extension in turn. Its value is pinned by `Extensions.CountDownAvailableValue`. |
| Extensions.CheckDeviceExtensionSupport | src/app.cpp:55-76 | The check passes exactly when the number of required names, minus the number of (available, required) name matches, is 0 modulo 2^32. When the available names are distinct, it passes exactly when every required name is available. |
| Extensions.CounterExactWhenDistinct | src/app.cpp:66-75 | With distinct available names, the counter ends at 0 exactly when every required name is available. |
| Extensions.ModSub | src/app.cpp:72 | Reducing modulo 2^32 before a subtraction and again after it gives the same result as reducing once. This is why repeated wrapping decrements compose. |
| Extensions.CountDownRequiredValue | src/app.cpp:69-73 | The inner loop over required names lowers the counter, modulo 2^32, by the number of required entries equal to the available name. |
| Extensions.CountDownAvailableValue | src/app.cpp:68-73 | The nested loops lower the counter, modulo 2^32, by the total number of name matches. |
| Extensions.Occurrences | src/app.cpp:68-71 | An available list mentions a name zero times exactly when it does not offer that name. |
| Extensions.CountOfferedBounds | src/app.cpp:66-75 | The number of offered required names is at most the number of required names, and equal to it exactly when all are offered. |
| Extensions.MatchesNoRequired | src/app.cpp:69 | With no required names there are no matches. |
| Extensions.MatchesAppendRequired | src/app.cpp:69-72 | One more required name adds that name's number of occurrences in the available list to the matches. |
| Extensions.OccurrencesAtMostOne | src/app.cpp:68-71 | With distinct available names, a name occurs once if it is offered and not at all otherwise. |
| Extensions.MatchesCountsOffered | src/app.cpp:68-73 | With distinct available names, the matches count exactly the required names that are offered. |
| Extensions.DuplicateListingPassesMissingExtension | src/app.cpp:66-75 | Listing `VK_KHR_swapchain` twice brings the counter for the required list `["VK_KHR_swapchain", "VK_KHR_maintenance1"]` to 0, so the check passes although `VK_KHR_maintenance1` is missing. |
| Extensions.DuplicateListingRejectsOfferedExtension | src/app.cpp:66-75 | Listing `VK_KHR_swapchain` twice wraps the counter for the required list `["VK_KHR_swapchain"]` below 0, so the check fails although the extension is offered. |
| DeviceSelection.IsDeviceSuitable | src/app.cpp:108-118 | A device is suitable exactly when its type is a discrete GPU and it supports geometry shaders. |
| DeviceSelection.SelectPhysicalDevice | src/app.cpp:186-197 | Selection returns the index of a suitable device (a discrete GPU with geometry shaders) such that no earlier device is suitable. It fails with the no-suitable-device error exactly when no device is suitable, including when the list is empty. |
| DeviceSelection.SelectionIsEarliest | src/app.cpp:186-193 | If device j is suitable, selection succeeds with an index no greater than j. |
| DeviceSelection.LaterDevicesIrrelevant | src/app.cpp:188-191 | Once a device qualifies, appending more devices does not change the selection. |
| QueueFamilies.QueueFamilyIndices.IsComplete | src/app.cpp:18-20 | Indices are complete exactly when both the graphics and the present index are set. |
| QueueFamilies.Visit | src/app.cpp:131-139 | One loop iteration: family i becomes the present index if it can present, and then the graphics index if it has the graphics bit. Earlier values are overwritten. |
| QueueFamilies.ScanFrom | src/app.cpp:129-144 | The loop from index i, entered with the last graphics and present indices below i and before both have been seen. It either stops at the one index k where both have first been seen, holding the last indices up to k, or runs off the end incomplete, holding the last indices over the whole list. |
| QueueFamilies.FindQueueFamilies | src/app.cpp:120-147 | The result is complete exactly when some prefix of the list holds a graphics family and a present family. If it is complete, it holds the last graphics index and the last present index up to the first index k at which both have been seen. If it is incomplete, it holds the last of each over the whole list. Every index it holds is in range and names a family with that capability. |
| QueueFamilies.StoppingImpliesReady | src/app.cpp:140-141 | If the scan has a stopping index, then both capabilities occur in the list. |
| QueueFamilies.ReadyMonotone | src/app.cpp:18-20 | Once both capabilities have been seen in a prefix, they have been seen in every longer prefix. |
| QueueFamilies.StopIsUnique | src/app.cpp:140-141 | The scan has at most one stopping index. |
| QueueFamilies.ResultAtStop | src/app.cpp:130-146 | If the scan stops at k, the result is the last graphics index and the last present index among families 0..k. |
| QueueFamilies.StopFamilyIsAssigned | src/app.cpp:134-141 | At the stopping index k, at least one of the two fields equals k. |
| QueueFamilies.CompleteResultNamesStopFamily | src/app.cpp:134-146 | A complete result names, in at least one field, the family at which the scan stopped. |
| QueueFamilies.NoPresentFamilyIsIncomplete | src/app.cpp:131-135 | If no family can present to the surface, the result is incomplete. |
| QueueFamilies.DualFamilyAtStopTakesBoth | src/app.cpp:134-141 | If a family supports both graphics and present and the scan has not completed before it, both fields name that family. |
| QueueFamilies.LaterGraphicsFamilyOverwrites | src/app.cpp:137-139 | `[graphics, graphics, present]` gives graphics 1 and present 2: the later graphics family overwrites the earlier one. |
| QueueFamilies.SplitFamiliesBeforeDualFamilyWin | src/app.cpp:140-141 | `[graphics, present, graphics+present]` gives (0, 1). The scan stops before it reaches the family that supports both. |
| LogicalDevice.UniqueQueueCreateInfos | src/app.cpp:202-214 | There is one request per distinct family index: the set of requested families is exactly {graphics, present}. Requests come in ascending index order, as `std::set` iterates, and each asks for one queue. Both indices must be set. |
| LogicalDevice.RequestedFamiliesOfRequests | src/app.cpp:206-214 | A list of one or two requests requests exactly the families it names, in either order. |
| LogicalDevice.SwapChainAdequate | src/app.cpp:234-236 | The surface is adequate exactly when it offers at least one format and at least one present mode. |
| LogicalDevice.LogicalDeviceInit | src/app.cpp:199-249 | `logicalDeviceInit` fails in the code's order. An unset family index comes first (`.value()` throws). A failed extension check comes next, then an empty format or present-mode list, then a failed `vkCreateDevice`. Each failure happens exactly when its own condition holds and the earlier checks pass. On success, the family indices are complete and the device is created with one request per distinct family, one queue each, in ascending family order. The swap-chain extension is enabled, and the graphics and present queues are queue 0 of their families. |
| LogicalDevice.MissingExtensionMeansNotOffered | src/app.cpp:218-232 | When each extension is listed once, the extension failure happens exactly when `VK_KHR_swapchain` is not offered. |
| LogicalDevice.QueueRequestsCoverFetchedQueues | src/app.cpp:203-248 | Both fetched queues come from requested families. There is one request when graphics and present share a family and two otherwise. Both indices are below the family count. |
| Bootstrap.InitDevice | src/app.cpp:272-273 | After the surface exists, `init` succeeds exactly when `logicalDeviceInit` does, and fails with that step's error otherwise, after three creation steps. On success it completes all four steps and keeps the selected device, the logical device `logicalDeviceInit` built, and the format, present mode and extent that `swapChainInit` chooses for that device's surface and the framebuffer size. |
| Bootstrap.Init | src/app.cpp:259-274 | The first failing step decides the outcome, in the code's order. It fails with the instance error exactly when `vkCreateInstance` fails. It fails with the no-suitable-device error exactly when the instance exists and no device is suitable. It fails with the GLFW error exactly when the earlier steps pass and GLFW reports no Vulkan support. It fails with the surface error exactly when all of those pass and surface creation fails. Once all of them pass, the outcome is that of `logicalDeviceInit` and `swapChainInit` on the selected device. `init` succeeds exactly when it completes all four creation steps, and then it runs on the first suitable device. |
| Bootstrap.DeviceStageSteps | src/app.cpp:259-272 | Every `logicalDeviceInit` error comes after the instance, the physical device and the surface exist. |
| Bootstrap.InitStopsAtFailingStep | src/app.cpp:259-272 | A failed `init` has completed exactly the creation steps that precede the one that failed: 0 for the instance, 1 for device selection, 2 for the GLFW check or the surface, 3 for the logical device. |
| Bootstrap.NoFallbackToLaterDevice | src/app.cpp:186-197 | `init` commits to the first suitable device. Devices enumerated after it change nothing, even when the chosen device then fails a later check. |
| Bootstrap.Destructor | src/app.cpp:276-280 | The destructor as written releases the device, then the surface, then the instance, whatever `init` created. Its relation to creation is stated by `Bootstrap.DestructorMirrorsCreation` and `Bootstrap.FailedInitDestructorReleasesUnacquired`. |
| Bootstrap.OwnedAcquired | src/app.cpp:276-280 | The objects a log has to release are owned objects the log acquired. |
| Bootstrap.ReleaseAcquired | src/app.cpp:276-280 | The corrected teardown releases only owned objects that the log acquired. |
| Bootstrap.ReleaseAcquiredIsLastInFirstOut | src/app.cpp:276-280 | The object acquired last is released first, before the release sequence of everything acquired earlier. |
| Bootstrap.DestructorMirrorsCreation | src/app.cpp:276-280 | The destructor's device, surface, instance order is the creation order reversed over owned objects. The physical device is never released. |
| Bootstrap.HeldAfterAppend | src/app.cpp:276-280 | Replaying two logs one after the other is the same as replaying their concatenation. |
| Bootstrap.AcquisitionLogTail | src/app.cpp:259-274 | Dropping the first event of a log of distinct acquisitions leaves such a log, and the dropped object is not acquired again. |
| Bootstrap.HeldAfterAcquisitions | src/app.cpp:259-274 | Replaying distinct acquisitions adds exactly the owned objects acquired. |
| Bootstrap.HeldAfterReleases | src/app.cpp:276-280 | Releasing what a log acquired, newest first, removes exactly those objects and never releases a dead one. |
| Bootstrap.AcquireThenReleaseLeaksNothing | src/app.cpp:276-280 | Any log of distinct acquisitions followed by its release sequence leaves nothing alive. |
| Bootstrap.CreationPrefixIsAcquisitionLog | src/app.cpp:259-272 | Every prefix of the creation order acquires distinct objects. |
| Bootstrap.SuccessfulRunLeaksNothing | src/app.cpp:259-280 | After a successful `init`, the destructor releases every owned object once and leaves nothing alive. |
| Bootstrap.FailedInitDestructorReleasesUnacquired | src/app.cpp:276-280 | After a failed `init`, the destructor as written releases an object that was never created. |
| Bootstrap.ReleaseAcquiredLeaksNothing | src/app.cpp:276-280 | After any run of `init`, successful or failed, the corrected teardown releases only live objects and leaves nothing alive. |

## Left out

- Vulkan and GLFW calls (`vkGet*`, `vkCreate*`, `vkEnumerate*`, `glfwCreateWindowSurface`, `glfwGetFramebufferSize`, `glfwVulkanSupported`, `vkGetDeviceQueue`): their behaviour cannot be seen, so their answers are inputs and a fetched queue is a (family, index) pair.
- `baseInit`'s instance-extension enumeration and the GLFW extension list: they feed only logging and the create call, so only the outcome of `vkCreateInstance` is modelled.
- All `std::cout` logging, and the values only it reads: the physical-device name and vendor id, the spec version of each extension, and the surface's image counts.
- The `float` queue priority (src/app.cpp:205): floating point, and a constant.
- `querySwapChainSupport` (src/app.cpp:30-53): it only fills a record from driver calls, so the surface support snapshot is an input. It is taken to answer the same way both times `logicalDeviceInit` and `swapChainInit` call it.
- `src/window.cpp`, `src/window.h`, `src/loadBinFile.cpp`, `src/loadBinFile.h` and `main.cpp`: window plumbing, file I/O and the render loop, outside the bootstrap logic.
- Swap-chain creation, image count, image views, shader modules and the pipeline: the code does not build them. `swapChainInit` only computes a format, a mode and an extent, and the model keeps them in `SwapChoice`.
- Fields of the Vulkan records that no decision in the code reads, such as `currentExtent` and the queue count of a family, are not part of the records.
- The `nullptr` comparison in `physicalDeviceInit`: it is modelled as "no suitable device found", on the assumption that no enumerated handle is null.
- QueueFamilies.FindQueueFamilies: the loop counter `int i` would overflow after 2^31 families. Indices are unbounded naturals, because a driver reports far fewer families.
- Extensions.CheckDeviceExtensionSupport: requires fewer than 2^32 required names, because `size()` is narrowed to `unsigned int`. The code passes a single name.
- SwapChain.ChooseSwapExtent: requires min ≤ max on each axis, because `std::clamp` has undefined behaviour otherwise.
- Bootstrap.Init: requires the selected device's extent limits to be ordered, for the same reason.
- SwapChain.ChooseSwapExtentIdempotent: stated only for maximum extents below 2^31, because a larger clamped value no longer fits the `int` that the code takes as input.
- Bootstrap.SuccessfulRunLeaksNothing: counts acquisitions and releases of the four handles only. Queues are owned by the device and are not tracked separately.

## Findings

| source | as written | input that shows it | evidently intended | confidence | as-written member | corrected member |
|---|---|---|---|---|---|---|
| src/app.cpp:276-280 | `~Application` destroys the device, the surface and the instance unconditionally. | An `init` that throws before `vkCreateDevice`, e.g. no suitable physical device. `_device` and `_surface` were never created, and the members in src/app.h:20-26 have no initialisers, so the destructor passes indeterminate handles. | Release only what `init` created, newest first. | low, not executed; the destructor runs only if a caller catches the exception, and `main.cpp` does not construct an `Application` | Bootstrap.FailedInitDestructorReleasesUnacquired | Bootstrap.ReleaseAcquired |
