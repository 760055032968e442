/** skinnysipmanager.cpp: choosing the automatic microphone or speaker. */
module PreferredDevice {
  import opened Devices

  /** What the lookups say about a device; None when its hardware id cannot be found. */
  datatype Lookup = Unknown | Known(blacklisted: bool, onThunderbolt: bool, micUsbPair: bool)

  /** A microphone counts as a USB pair unless it is on Thunderbolt and those are not preferred. */
  predicate UsbPair(k: Lookup, depreferThunderbolt: bool)
    requires k.Known?
  {
    if depreferThunderbolt && k.onThunderbolt then false else k.micUsbPair
  }

  /** Not being blacklisted weighs more than being a USB pair, which counts for microphones only. */
  function RankOf(blacklisted: bool, usbPair: bool): nat {
    (if blacklisted then 0 else 2) + (if usbPair then 1 else 0)
  }

  function Rank(k: Lookup, capture: bool, deprefer: bool): nat
    requires k.Known?
  {
    RankOf(k.blacklisted, capture && UsbPair(k, deprefer))
  }

  /** The rank the selection starts from: a failed lookup is the worst case. */
  function StartRank(k: Lookup, capture: bool, deprefer: bool): nat {
    if k.Known? then Rank(k, capture, deprefer) else 0
  }

  function BestRank(capture: bool): nat {
    if capture then 3 else 2
  }

  lemma HighestRank(capture: bool, usbPair: bool)
    requires usbPair == capture
    ensures RankOf(false, usbPair) == BestRank(capture)
  {
  }

  class DeviceChooser {
    var audioCaptureDevices: seq<Device>
    var audioPlayoutDevices: seq<Device>
    const automaticDeviceGuid: string
    const depreferUsbOnThunderbolt: bool
    const lookup: (bool, Device) -> Lookup  // by direction and device

    constructor (guid: string, deprefer: bool, lookup: (bool, Device) -> Lookup)
    {
      audioCaptureDevices, audioPlayoutDevices := [], [];
      automaticDeviceGuid := guid;
      depreferUsbOnThunderbolt := deprefer;
      this.lookup := lookup;
    }

    function Devices(capture: bool): seq<Device>
      reads this
    {
      if capture then audioCaptureDevices else audioPlayoutDevices
    }

    predicate Eligible(capture: bool, d: Device) {
      d.id != automaticDeviceGuid && lookup(capture, d).Known?
    }

    /** The rank of a candidate; the automatic entry and failed lookups have none. */
    function CandidateRank(capture: bool, d: Device): int {
      if Eligible(capture, d) then Rank(lookup(capture, d), capture, depreferUsbOnThunderbolt) else -1
    }

    /**
     * The chosen position is the first of highest rank among the devices that beat the default;
     * with no such device the default stays.
     */
    ghost predicate IsBest(capture: bool, start: nat, devices: seq<Device>, chosen: int) {
      && -1 <= chosen < |devices|
      && var top := if chosen == -1 then start as int else CandidateRank(capture, devices[chosen]);
      && (chosen >= 0 ==> top > start)
      && (forall i | 0 <= i < |devices| :: CandidateRank(capture, devices[i]) <= top)
      && (forall i | 0 <= i < chosen :: CandidateRank(capture, devices[i]) < top)
    }

    /** The rank that a choice stands for. */
    ghost function Top(capture: bool, start: nat, devices: seq<Device>, chosen: int): int
      requires -1 <= chosen < |devices|
    {
      if chosen == -1 then start else CandidateRank(capture, devices[chosen])
    }

    /** Looking at one more device: it is chosen exactly when its rank is strictly higher. */
    lemma ExtendBest(capture: bool, start: nat, devices: seq<Device>, chosen: int, d: Device)
      requires IsBest(capture, start, devices, chosen)
      ensures IsBest(capture, start, devices + [d],
                     if CandidateRank(capture, d) > Top(capture, start, devices, chosen) then |devices| else chosen)
    {
    }

    /** The choice after a scan of devices, and its rank. */
    ghost function BestOf(capture: bool, start: nat, devices: seq<Device>): (best: (int, int))
      ensures -1 <= best.0 < |devices|
    {
      if devices == [] then (-1, start)
      else
        var n := |devices| - 1;
        var best, rank := BestOf(capture, start, devices[..n]), CandidateRank(capture, devices[n]);
        if rank > best.1 then (n, rank) else best
    }

    lemma {:induction false} BestOfIsBest(capture: bool, start: nat, devices: seq<Device>)
      ensures var best := BestOf(capture, start, devices);
              IsBest(capture, start, devices, best.0) && Top(capture, start, devices, best.0) == best.1
      decreases |devices|
    {
      if devices != [] {
        var n := |devices| - 1;
        BestOfIsBest(capture, start, devices[..n]);
        ExtendBest(capture, start, devices[..n], BestOf(capture, start, devices[..n]).0, devices[n]);
        assert devices == devices[..n] + [devices[n]];
      }
    }

    lemma BestOfExtend(capture: bool, start: nat, devices: seq<Device>, d: Device)
      ensures var best, rank := BestOf(capture, start, devices), CandidateRank(capture, d);
              BestOf(capture, start, devices + [d]) == if rank > best.1 then (|devices|, rank) else best
    {
      assert (devices + [d])[..|devices|] == devices;
    }

    lemma BestOfNothing(capture: bool, start: nat, devices: seq<Device>)
      ensures devices == [] ==> BestOf(capture, start, devices) == (-1, start)
    {
    }

    /** The code's test for switching compares ranks. */
    lemma SwitchesWhenHigher(capture: bool, blacklisted: bool, usbPair: bool, d: Device)
      requires !capture ==> !usbPair
      ensures var k := lookup(capture, d);
              var pair := k.Known? && capture && UsbPair(k, depreferUsbOnThunderbolt);
              && (CandidateRank(capture, d) > RankOf(blacklisted, usbPair) <==>
                    && d.id != automaticDeviceGuid && k.Known?
                    && !(!blacklisted && k.blacklisted)
                    && ((blacklisted && !k.blacklisted) || (capture && !usbPair && pair)))
              && (d.id != automaticDeviceGuid && k.Known? ==> CandidateRank(capture, d) == RankOf(k.blacklisted, pair))
    {
    }

    /** Early exit: once the highest possible rank is reached, the rest of the list cannot matter. */
    lemma BestIsFinal(capture: bool, start: nat, devices: seq<Device>, chosen: int, rest: seq<Device>)
      requires IsBest(capture, start, devices, chosen)
      requires Top(capture, start, devices, chosen) == BestRank(capture) || rest == []
      ensures IsBest(capture, start, devices + rest, chosen)
    {
      if rest == [] {
        assert devices + rest == devices;
      }
    }

    /** The description above has one answer. */
    lemma BestIsUnique(capture: bool, start: nat, devices: seq<Device>, a: int, b: int)
      requires IsBest(capture, start, devices, a) && IsBest(capture, start, devices, b)
      ensures a == b
    {
      if a >= 0 {
        assert CandidateRank(capture, devices[a]) > start as int;
      }
      if b >= 0 {
        assert CandidateRank(capture, devices[b]) > start as int;
      }
    }

    /** A device that can be looked up and is not blacklisted. */
    predicate Usable(capture: bool, d: Device) {
      lookup(capture, d).Known? && !lookup(capture, d).blacklisted
    }

    /** A usable microphone of a USB pair; one on Thunderbolt only when those are not deferred. */
    predicate UsablePair(d: Device) {
      && Usable(true, d) && lookup(true, d).micUsbPair
      && !(depreferUsbOnThunderbolt && lookup(true, d).onThunderbolt)
    }

    /** What a user can expect of the choice, said with the facts about the devices alone. */
    ghost predicate IsSensible(capture: bool, default: Device, devices: seq<Device>, chosen: int, selected: Device) {
      && (chosen != -1 ==>
            selected in devices && selected.id != automaticDeviceGuid && lookup(capture, selected).Known?)
      // a usable device is never passed over for one that is not, nor the default left without need
      && (Usable(capture, default) ==> Usable(capture, selected))
      && (forall d | d in devices && d.id != automaticDeviceGuid && Usable(capture, d) :: Usable(capture, selected))
      && (!capture && Usable(capture, default) ==> chosen == -1)
      // among usable microphones a pair wins
      && (capture && UsablePair(default) ==> chosen == -1)
      && (capture ==> forall d | d in devices && d.id != automaticDeviceGuid && UsablePair(d) :: UsablePair(selected))
      && (capture && Usable(capture, default) && chosen != -1 ==> UsablePair(selected))
    }

    lemma BestIsSensible(capture: bool, default: Device, devices: seq<Device>, chosen: int)
      requires IsBest(capture, StartRank(lookup(capture, default), capture, depreferUsbOnThunderbolt), devices, chosen)
      ensures IsSensible(capture, default, devices, chosen, if chosen == -1 then default else devices[chosen])
    {
      forall d | d in devices ensures exists i :: 0 <= i < |devices| && devices[i] == d {
      }
    }

    /** A scan that went through, or stopped at the highest rank, has the best choice of the whole list. */
    lemma ScanIsEnough(capture: bool, default: Device, devices: seq<Device>, i: nat, chosen: int, rank: int)
      requires i <= |devices| && (i == |devices| || rank == BestRank(capture))
      requires BestOf(capture, StartRank(lookup(capture, default), capture, depreferUsbOnThunderbolt), devices[..i])
            == (chosen, rank)
      ensures IsBest(capture, StartRank(lookup(capture, default), capture, depreferUsbOnThunderbolt), devices, chosen)
      ensures IsSensible(capture, default, devices, chosen, if chosen == -1 then default else devices[chosen])
    {
      var start := StartRank(lookup(capture, default), capture, depreferUsbOnThunderbolt);
      hide DeviceChooser.IsBest, IsSensible, StartRank, DeviceChooser.BestOf;
      BestOfIsBest(capture, start, devices[..i]);
      assert devices[..i] + devices[i..] == devices;
      BestIsFinal(capture, start, devices[..i], chosen, devices[i..]);
      BestIsSensible(capture, default, devices, chosen);
    }

    /** The scan for a device better than the default, whose two facts are given. */
    method Scan(capture: bool, default: Device, deviceList: seq<Device>, blacklisted: bool, usbPair: bool)
      returns (selected: Device, ghost chosen: int)
      requires !capture ==> !usbPair
      requires StartRank(lookup(capture, default), capture, depreferUsbOnThunderbolt) == RankOf(blacklisted, usbPair)
      ensures IsBest(capture, StartRank(lookup(capture, default), capture, depreferUsbOnThunderbolt), deviceList, chosen)
      ensures selected == if chosen == -1 then default else deviceList[chosen]
      ensures IsSensible(capture, default, deviceList, chosen, selected)
    {
      var preferMatchingUsbDevice := capture;
      var isSelectedBlacklisted, isSelectedUsbPair := blacklisted, usbPair;
      selected, chosen := default, -1;
      hide *;
      ghost var start := RankOf(isSelectedBlacklisted, isSelectedUsbPair);
      BestOfNothing(capture, start, deviceList[..0]);
      var i := 0;
      while i < |deviceList|
        invariant 0 <= i <= |deviceList|
        invariant !preferMatchingUsbDevice ==> !isSelectedUsbPair
        invariant BestOf(capture, start, deviceList[..i]) == (chosen, RankOf(isSelectedBlacklisted, isSelectedUsbPair))
        invariant selected == if chosen == -1 then default else deviceList[chosen]
      {
        var candidate := deviceList[i];
        assert deviceList[..i + 1] == deviceList[..i] + [candidate];
        BestOfExtend(capture, start, deviceList[..i], candidate);
        SwitchesWhenHigher(capture, isSelectedBlacklisted, isSelectedUsbPair, candidate);
        if candidate.id != automaticDeviceGuid {
          if (!preferMatchingUsbDevice || isSelectedUsbPair) && !isSelectedBlacklisted {
            HighestRank(capture, isSelectedUsbPair);
            break;
          }
          var k := lookup(capture, candidate);
          if k.Known? {
            var isCandidateUsbPair := preferMatchingUsbDevice && UsbPair(k, depreferUsbOnThunderbolt);
            if !isSelectedBlacklisted && k.blacklisted {
              // never move from a device that is not blacklisted to one that is
            } else if (isSelectedBlacklisted && !k.blacklisted)
                   || (preferMatchingUsbDevice && !isSelectedUsbPair && isCandidateUsbPair) {
              selected, chosen := candidate, i;
              isSelectedBlacklisted, isSelectedUsbPair := k.blacklisted, isCandidateUsbPair;
            }
          }
        }
        i := i + 1;
      }
      ScanIsEnough(capture, default, deviceList, i, chosen, RankOf(isSelectedBlacklisted, isSelectedUsbPair));
    }

    /**
     * Returns false, choosing nothing, exactly when there are no devices. Otherwise the result is the
     * best device over the whole list although the scan stops as soon as nothing better can come.
     */
    method GetPreferredDeviceId(capture: bool, default: Device)
      returns (ok: bool, selected: Device, ghost chosen: int)
      ensures ok <==> Devices(capture) != []
      ensures !ok ==> selected == default
      ensures ok ==>
                && IsBest(capture, StartRank(lookup(capture, default), capture, depreferUsbOnThunderbolt),
                          Devices(capture), chosen)
                && selected == (if chosen == -1 then default else Devices(capture)[chosen])
                && IsSensible(capture, default, Devices(capture), chosen, selected)
    {
      var deviceList := if capture then audioCaptureDevices else audioPlayoutDevices;
      var preferMatchingUsbDevice := capture;
      var isSelectedUsbPair, isSelectedBlacklisted := false, true;
      selected, chosen := default, -1;
      if |deviceList| == 0 {
        return false, selected, chosen;
      }
      var k := lookup(capture, default);
      if k.Known? {
        isSelectedBlacklisted := k.blacklisted;
        if preferMatchingUsbDevice {
          isSelectedUsbPair := UsbPair(k, depreferUsbOnThunderbolt);
        }
      }
      selected, chosen := Scan(capture, default, deviceList, isSelectedBlacklisted, isSelectedUsbPair);
      return true, selected, chosen;
    }
  }
}
