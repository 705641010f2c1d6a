/** Application::init and Application::~Application: the steps in their fixed order, the
    objects each step acquires, and the destructor's release order. */
module Bootstrap {
  import opened Wrappers
  import opened VulkanTypes
  import opened SwapChain
  import opened DeviceSelection
  import opened LogicalDevice

  /** The Vulkan objects the application holds. */
  datatype VkObject = InstanceObject | PhysicalDeviceObject | SurfaceObject | DeviceObject

  /** Objects the application must destroy itself. A physical device is only enumerated
      from the instance; it is never created or destroyed by the application. */
  predicate Owned(o: VkObject) {
    o != PhysicalDeviceObject
  }

  datatype Event = Acquired(obj: VkObject) | Released(obj: VkObject)

  /** What a complete `init` acquires, in order. */
  const CreationOrder: seq<Event> :=
    [Acquired(InstanceObject), Acquired(PhysicalDeviceObject), Acquired(SurfaceObject), Acquired(DeviceObject)]

  /** Everything outside the code that `init` consults: the results of `vkCreateInstance`,
      `glfwVulkanSupported`, `glfwCreateWindowSurface` and `vkCreateDevice`, the enumerated
      devices, and the framebuffer size. */
  datatype Platform = Platform(
    instanceCreates: bool,
    physicalDevices: seq<PhysicalDevice>,
    vulkanSupported: bool,
    surfaceCreates: bool,
    framebufferWidth: I32,
    framebufferHeight: I32,
    deviceCreates: bool)

  /** The surface of the device `init` would select has ordered extent limits, which
      the `std::clamp` calls in `chooseSwapExtent` rely on. */
  predicate WellFormed(platform: Platform) {
    var devices := platform.physicalDevices;
    SelectPhysicalDevice(devices).Success? ==>
      ExtentLimitsOrdered(devices[SelectPhysicalDevice(devices).value].surfaceSupport.capabilities)
  }

  /** The state of a fully initialised Application. `swapChoice` holds the values
      `swapChainInit` computes into locals and then drops. */
  datatype Application = Application(physicalDevice: PhysicalDevice, device: Device, swapChoice: SwapChoice)

  /** The outcome of `init` together with how many of its creation steps completed. */
  datatype InitRun = InitRun(outcome: Result<Application, InitError>, completed: nat) {
    /** What the run acquired, in order. */
    function Events(): seq<Event>
      requires completed <= |CreationOrder|
    {
      CreationOrder[..completed]
    }
  }

  /** How many creation steps have completed when `init` fails with `e`. */
  function StepsBefore(e: InitError): nat {
    match e
    case InstanceCreationFailed => 0
    case NoSuitableDevice => 1
    case VulkanUnsupported | SurfaceCreationFailed => 2
    case _ => 3
  }

  /** The part of `init` after the surface exists: logicalDeviceInit, then swapChainInit
      on the selected device. */
  function InitDevice(physicalDevice: PhysicalDevice, platform: Platform): (r: InitRun)
    requires ExtentLimitsOrdered(physicalDevice.surfaceSupport.capabilities)
    ensures r.outcome.Success? <==> LogicalDeviceInit(physicalDevice, platform.deviceCreates).Success?
    ensures r.outcome.Failure? ==> r.outcome.error == LogicalDeviceInit(physicalDevice, platform.deviceCreates).error
    ensures r.outcome.Success? <==> r.completed == |CreationOrder|
    ensures r.outcome.Failure? ==> r.completed == 3 && DeviceStageError(r.outcome.error)
    ensures r.outcome.Success? ==>
              var app := r.outcome.value;
              && app.physicalDevice == physicalDevice
              && app.device == LogicalDeviceInit(physicalDevice, platform.deviceCreates).value
              && app.swapChoice == SwapChainInit(
                   physicalDevice.surfaceSupport, platform.framebufferWidth, platform.framebufferHeight)
              && app.swapChoice.surfaceFormat in physicalDevice.surfaceSupport.formats
              && WithinExtentLimits(app.swapChoice.extent, physicalDevice.surfaceSupport.capabilities)
  {
    match LogicalDeviceInit(physicalDevice, platform.deviceCreates)
    case Failure(e) => InitRun(Failure(e), 3)
    case Success(device) =>
      var choice := SwapChainInit(
        physicalDevice.surfaceSupport, platform.framebufferWidth, platform.framebufferHeight);
      InitRun(Success(Application(physicalDevice, device, choice)), 4)
  }

  /** Application::init: baseInit, physicalDeviceInit, the GLFW Vulkan check, surface
      creation, the framebuffer size, logicalDeviceInit, swapChainInit. The first failure
      ends it. */
  function Init(platform: Platform): (r: InitRun)
    requires WellFormed(platform)
    ensures r.outcome == Failure(InstanceCreationFailed) <==> !platform.instanceCreates
    ensures r.outcome == Failure(NoSuitableDevice) <==>
              platform.instanceCreates && SelectPhysicalDevice(platform.physicalDevices).Failure?
    ensures r.outcome == Failure(VulkanUnsupported) <==>
              && platform.instanceCreates
              && SelectPhysicalDevice(platform.physicalDevices).Success?
              && !platform.vulkanSupported
    ensures r.outcome == Failure(SurfaceCreationFailed) <==>
              && platform.instanceCreates
              && SelectPhysicalDevice(platform.physicalDevices).Success?
              && platform.vulkanSupported
              && !platform.surfaceCreates
    ensures var selected := SelectPhysicalDevice(platform.physicalDevices);
            platform.instanceCreates && selected.Success? && platform.vulkanSupported && platform.surfaceCreates ==>
              r == InitDevice(platform.physicalDevices[selected.value], platform)
    ensures r.completed <= |CreationOrder|
    ensures r.outcome.Success? <==> r.completed == |CreationOrder|
    ensures r.outcome.Success? ==>
              var devices := platform.physicalDevices;
              var app := r.outcome.value;
              && SelectPhysicalDevice(devices).Success?
              && app.physicalDevice == devices[SelectPhysicalDevice(devices).value]
              && app.swapChoice.surfaceFormat in app.physicalDevice.surfaceSupport.formats
              && WithinExtentLimits(app.swapChoice.extent, app.physicalDevice.surfaceSupport.capabilities)
  {
    if !platform.instanceCreates then InitRun(Failure(InstanceCreationFailed), 0)
    else
      match SelectPhysicalDevice(platform.physicalDevices)
      case Failure(e) => InitRun(Failure(e), 1)
      case Success(i) =>
        if !platform.vulkanSupported then InitRun(Failure(VulkanUnsupported), 2)
        else if !platform.surfaceCreates then InitRun(Failure(SurfaceCreationFailed), 2)
        else InitDevice(platform.physicalDevices[i], platform)
  }

  /** Every logicalDeviceInit error comes after the instance, device selection and surface steps. */
  lemma DeviceStageSteps(e: InitError)
    requires DeviceStageError(e)
    ensures StepsBefore(e) == 3
  {
  }

  /** A failed `init` has completed exactly the creation steps that come before the
      step its error names. */
  lemma InitStopsAtFailingStep(platform: Platform)
    requires WellFormed(platform) && Init(platform).outcome.Failure?
    ensures Init(platform).completed == StepsBefore(Init(platform).outcome.error)
  {
    var r := Init(platform);
    if r.completed == 3 {
      DeviceStageSteps(r.outcome.error);
    }
  }

  /** Application::~Application as written: device, then surface, then instance, whatever
      `init` managed to create. */
  function Destructor(): seq<Event> {
    [Released(DeviceObject), Released(SurfaceObject), Released(InstanceObject)]
  }

  /** A log that only acquires, never the same object twice. */
  predicate AcquisitionLog(events: seq<Event>) {
    && (forall k :: 0 <= k < |events| ==> events[k].Acquired?)
    && (forall i, j :: 0 <= i < j < |events| ==> events[i].obj != events[j].obj)
  }

  /** The owned objects a log acquires. */
  function OwnedAcquired(events: seq<Event>): (r: set<VkObject>)
    ensures forall o :: o in r ==> Owned(o) && Acquired(o) in events
  {
    if events == [] then {}
    else
      var first := if events[0].Acquired? && Owned(events[0].obj) then {events[0].obj} else {};
      first + OwnedAcquired(events[1..])
  }

  /** Release exactly the owned objects a log acquired, newest first. */
  function ReleaseAcquired(events: seq<Event>): (r: seq<Event>)
    ensures forall k :: 0 <= k < |r| ==> r[k].Released? && r[k].obj in OwnedAcquired(events)
  {
    if events == [] then []
    else
      var rest := ReleaseAcquired(events[1..]);
      if events[0].Acquired? && Owned(events[0].obj) then rest + [Released(events[0].obj)] else rest
  }

  /** The owned objects alive after replaying `log` from `held`; `None` if the log
      releases an object that is not alive. */
  function HeldAfter(log: seq<Event>, held: set<VkObject>): Option<set<VkObject>> {
    if log == [] then Some(held)
    else match log[0]
      case Acquired(o) => HeldAfter(log[1..], if Owned(o) then held + {o} else held)
      case Released(o) => if o in held then HeldAfter(log[1..], held - {o}) else None
  }

  /** The newest acquisition is released first. */
  lemma {:induction false} ReleaseAcquiredIsLastInFirstOut(events: seq<Event>, o: VkObject)
    requires Owned(o)
    ensures ReleaseAcquired(events + [Acquired(o)]) == [Released(o)] + ReleaseAcquired(events)
  {
    if events == [] {
      assert [Acquired(o)][1..] == [];
    } else {
      var extended := events + [Acquired(o)];
      assert extended[0] == events[0];
      assert extended[1..] == events[1..] + [Acquired(o)];
      ReleaseAcquiredIsLastInFirstOut(events[1..], o);
      var front := [Released(o)];
      var rest := ReleaseAcquired(events[1..]);
      if events[0].Acquired? && Owned(events[0].obj) {
        var last := [Released(events[0].obj)];
        calc {
          ReleaseAcquired(extended);
          ReleaseAcquired(extended[1..]) + last;
          (front + rest) + last;
          { assert (front + rest) + last == front + (rest + last); }
          front + (rest + last);
          front + ReleaseAcquired(events);
        }
      } else {
        calc {
          ReleaseAcquired(extended);
          ReleaseAcquired(extended[1..]);
          front + rest;
          front + ReleaseAcquired(events);
        }
      }
    }
  }

  /** The destructor is the creation order reversed over the owned objects, and the
      physical device is never released. */
  lemma DestructorMirrorsCreation()
    ensures Destructor() == ReleaseAcquired(CreationOrder)
    ensures Released(PhysicalDeviceObject) !in Destructor()
  {
    var i := Acquired(InstanceObject);
    assert ReleaseAcquired([i]) == [Released(InstanceObject)] by {
      assert [i][1..] == [];
    }
    assert CreationOrder[..2] == [i] + [Acquired(PhysicalDeviceObject)];
    assert ReleaseAcquired(CreationOrder[..2]) == ReleaseAcquired([i]) by {
      assert CreationOrder[..2][1..] == [Acquired(PhysicalDeviceObject)];
      assert ReleaseAcquired([Acquired(PhysicalDeviceObject)]) == [] by {
        assert [Acquired(PhysicalDeviceObject)][1..] == [];
      }
    }
    assert CreationOrder[..3] == CreationOrder[..2] + [Acquired(SurfaceObject)];
    ReleaseAcquiredIsLastInFirstOut(CreationOrder[..2], SurfaceObject);
    assert CreationOrder == CreationOrder[..3] + [Acquired(DeviceObject)];
    ReleaseAcquiredIsLastInFirstOut(CreationOrder[..3], DeviceObject);
  }

  /** Replaying a concatenation is replaying its parts in turn. */
  lemma {:induction false} HeldAfterAppend(a: seq<Event>, b: seq<Event>, held: set<VkObject>)
    ensures HeldAfter(a + b, held) ==
              match HeldAfter(a, held)
              case None => None
              case Some(h) => HeldAfter(b, h)
  {
    if a == [] {
      assert a + b == b;
    } else {
      assert (a + b)[0] == a[0];
      assert (a + b)[1..] == a[1..] + b;
      match a[0]
      case Acquired(o) => HeldAfterAppend(a[1..], b, if Owned(o) then held + {o} else held);
      case Released(o) => if o in held { HeldAfterAppend(a[1..], b, held - {o}); }
    }
  }

  lemma AcquisitionLogTail(events: seq<Event>)
    requires AcquisitionLog(events) && events != []
    ensures AcquisitionLog(events[1..])
    ensures events[0].obj !in OwnedAcquired(events[1..])
  {
    var rest := events[1..];
    forall i, j | 0 <= i < j < |rest| ensures rest[i].obj != rest[j].obj {
      assert rest[i] == events[i + 1] && rest[j] == events[j + 1];
    }
  }

  /** Acquiring only adds the owned objects acquired. */
  lemma {:induction false} HeldAfterAcquisitions(events: seq<Event>, held: set<VkObject>)
    requires AcquisitionLog(events)
    ensures HeldAfter(events, held) == Some(held + OwnedAcquired(events))
  {
    if events != [] {
      AcquisitionLogTail(events);
      var o := events[0].obj;
      var held' := if Owned(o) then held + {o} else held;
      assert events[0] == Acquired(o);
      assert HeldAfter(events, held) == HeldAfter(events[1..], held');
      HeldAfterAcquisitions(events[1..], held');
      var first := if Owned(o) then {o} else {};
      assert OwnedAcquired(events) == first + OwnedAcquired(events[1..]);
      assert held' + OwnedAcquired(events[1..]) == held + (first + OwnedAcquired(events[1..]));
    } else {
      assert held + {} == held;
    }
  }

  /** Releasing what a log acquired removes exactly those objects. */
  lemma {:induction false} HeldAfterReleases(events: seq<Event>, held: set<VkObject>)
    requires AcquisitionLog(events) && OwnedAcquired(events) <= held
    ensures HeldAfter(ReleaseAcquired(events), held) == Some(held - OwnedAcquired(events))
  {
    if events == [] {
      assert held - {} == held;
    } else {
      AcquisitionLogTail(events);
      var o := events[0].obj;
      var rest := events[1..];
      HeldAfterReleases(rest, held);
      if Owned(o) {
        HeldAfterAppend(ReleaseAcquired(rest), [Released(o)], held);
        assert o in held - OwnedAcquired(rest);
        assert [Released(o)][1..] == [];
        assert held - OwnedAcquired(rest) - {o} == held - OwnedAcquired(events);
      } else {
        assert OwnedAcquired(events) == OwnedAcquired(rest);
      }
    }
  }

  /** Releasing, newest first, what any log of distinct acquisitions acquired leaves
      nothing alive and never releases an object that is not alive. */
  lemma AcquireThenReleaseLeaksNothing(events: seq<Event>)
    requires AcquisitionLog(events)
    ensures HeldAfter(events + ReleaseAcquired(events), {}) == Some({})
  {
    HeldAfterAppend(events, ReleaseAcquired(events), {});
    HeldAfterAcquisitions(events, {});
    assert {} + OwnedAcquired(events) == OwnedAcquired(events);
    HeldAfterReleases(events, OwnedAcquired(events));
    assert OwnedAcquired(events) - OwnedAcquired(events) == {};
  }

  lemma CreationPrefixIsAcquisitionLog(n: nat)
    requires n <= |CreationOrder|
    ensures AcquisitionLog(CreationOrder[..n])
  {
  }

  /** After a successful `init`, the destructor releases every owned object exactly once
      and nothing is left. */
  lemma SuccessfulRunLeaksNothing(platform: Platform)
    requires WellFormed(platform) && Init(platform).outcome.Success?
    ensures HeldAfter(Init(platform).Events() + Destructor(), {}) == Some({})
  {
    assert Init(platform).completed == |CreationOrder|;
    assert Init(platform).Events() == CreationOrder;
    DestructorMirrorsCreation();
    CreationPrefixIsAcquisitionLog(|CreationOrder|);
    AcquireThenReleaseLeaksNothing(CreationOrder);
  }

  /** After a failed `init`, the destructor as written releases an object `init` never
      created. */
  lemma FailedInitDestructorReleasesUnacquired(platform: Platform)
    requires WellFormed(platform) && Init(platform).outcome.Failure?
    ensures HeldAfter(Init(platform).Events() + Destructor(), {}) == None
  {
    var events := Init(platform).Events();
    CreationPrefixIsAcquisitionLog(Init(platform).completed);
    HeldAfterAcquisitions(events, {});
    HeldAfterAppend(events, Destructor(), {});
    assert DeviceObject !in OwnedAcquired(events);
  }

  /** Releasing what was acquired, newest first, leaves nothing alive after any run of
      `init`, successful or not. */
  lemma ReleaseAcquiredLeaksNothing(platform: Platform)
    requires WellFormed(platform)
    ensures var events := Init(platform).Events();
            HeldAfter(events + ReleaseAcquired(events), {}) == Some({})
  {
    CreationPrefixIsAcquisitionLog(Init(platform).completed);
    AcquireThenReleaseLeaksNothing(Init(platform).Events());
  }

  /** Initialisation commits to the first suitable device: devices enumerated after it
      change nothing, even when the first one then fails a later check that a later
      device would pass. */
  lemma NoFallbackToLaterDevice(platform: Platform, later: seq<PhysicalDevice>)
    requires WellFormed(platform) && WellFormed(platform.(physicalDevices := platform.physicalDevices + later))
    requires SelectPhysicalDevice(platform.physicalDevices).Success?
    ensures Init(platform.(physicalDevices := platform.physicalDevices + later)) == Init(platform)
  {
    LaterDevicesIrrelevant(platform.physicalDevices, later);
    var i := SelectPhysicalDevice(platform.physicalDevices).value;
    assert (platform.physicalDevices + later)[i] == platform.physicalDevices[i];
  }
}
