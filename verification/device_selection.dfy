/** isDeviceSuitable and the selection loop of `Application::physicalDeviceInit`. */
module DeviceSelection {
  import opened Wrappers
  import opened VulkanTypes
  import Seqs

  /** A discrete GPU that reports the geometry-shader feature. */
  predicate IsDeviceSuitable(d: PhysicalDevice) {
    d.properties.deviceType == DiscreteGpu && d.features.geometryShader
  }

  /** The position, in enumeration order, of the device `physicalDeviceInit` keeps: the
      first suitable one. No scoring; an empty or all-unsuitable list is an error. */
  function SelectPhysicalDevice(devices: seq<PhysicalDevice>): (r: Result<nat, InitError>)
    ensures r.Success? ==> r.value < |devices| && IsDeviceSuitable(devices[r.value])
    ensures r.Success? ==> forall j :: 0 <= j < r.value ==> !IsDeviceSuitable(devices[j])
    ensures r.Failure? <==> forall j :: 0 <= j < |devices| ==> !IsDeviceSuitable(devices[j])
    ensures r.Failure? ==> r.error == NoSuitableDevice
  {
    match Seqs.FirstMatch(devices, IsDeviceSuitable, 0)
    case Some(i) => Success(i)
    case None => Failure(NoSuitableDevice)
  }

  /** Never a later device: any suitable device is at or after the chosen one. */
  lemma SelectionIsEarliest(devices: seq<PhysicalDevice>, j: nat)
    requires j < |devices| && IsDeviceSuitable(devices[j])
    ensures SelectPhysicalDevice(devices).Success?
    ensures SelectPhysicalDevice(devices).value <= j
  {
  }

  /** Devices enumerated after a suitable one cannot change the choice. */
  lemma {:induction false} LaterDevicesIrrelevant(devices: seq<PhysicalDevice>, later: seq<PhysicalDevice>)
    requires SelectPhysicalDevice(devices).Success?
    ensures SelectPhysicalDevice(devices + later) == SelectPhysicalDevice(devices)
  {
    var i := SelectPhysicalDevice(devices).value;
    var all := devices + later;
    assert all[i] == devices[i];
    forall j | 0 <= j < i ensures !IsDeviceSuitable(all[j]) {
      assert all[j] == devices[j];
    }
    var k := SelectPhysicalDevice(all).value;
    assert k <= i;
    assert all[k] == devices[k];
  }
}
