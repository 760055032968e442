/** skinnysipmanager.cpp: reconciling the saved device lists with the system's, one device per message. */
module DeviceSync {
  import opened Devices

  datatype Action = Added | Removed

  datatype DeviceType = AudioIn | AudioOut | Video

  /** dev_, and what the application is told. */
  datatype Notice = Notice(action: Action, devType: DeviceType, id: string, name: string)

  /** The three device lists: as enumerated by the system, or as saved. */
  datatype Lists = Lists(audioIn: seq<Device>, audioOut: seq<Device>, video: seq<Device>)

  function Ids(ds: seq<Device>): set<string> {
    set i | 0 <= i < |ds| :: ds[i].id
  }

  lemma IdsConcat(a: seq<Device>, b: seq<Device>)
    ensures Ids(a + b) == Ids(a) + Ids(b)
  {
    forall x | x in Ids(a) + Ids(b) ensures x in Ids(a + b) {
      if x in Ids(a) {
        var i :| 0 <= i < |a| && a[i].id == x;
        assert (a + b)[i].id == x;
      } else {
        var i :| 0 <= i < |b| && b[i].id == x;
        assert (a + b)[|a| + i].id == x;
      }
    }
    forall x | x in Ids(a + b) ensures x in Ids(a) + Ids(b) {
      var i :| 0 <= i < |a + b| && (a + b)[i].id == x;
      assert if i < |a| then a[i].id == x else b[i - |a|].id == x;
    }
  }

  lemma IdsOne(d: Device)
    ensures Ids([d]) == {d.id}
  {
    assert [d][0].id in Ids([d]);
  }

  /** The first device of ds whose id is not among known, or |ds|. */
  function FirstNotIn(ds: seq<Device>, known: set<string>): (i: nat)
    ensures i <= |ds|
    ensures i < |ds| ==> ds[i].id !in known
    ensures forall j | 0 <= j < i :: ds[j].id in known
  {
    if ds == [] || ds[0].id !in known then 0 else 1 + FirstNotIn(ds[1..], known)
  }

  // ---------- What a whole run does to one list ----------

  /** The enumerated devices with unseen ids, one per id, in the order they will be added. */
  function Unseen(saved: seq<Device>, found: seq<Device>): seq<Device>
    decreases |found|
  {
    if found == [] then []
    else if found[0].id in Ids(saved) then Unseen(saved, found[1..])
    else [found[0]] + Unseen(saved + [found[0]], found[1..])
  }

  /** The saved devices that are still, or no longer, enumerated, in saved order. */
  function Select(saved: seq<Device>, ids: set<string>, present: bool): seq<Device> {
    if saved == [] then []
    else (if (saved[0].id in ids) == present then [saved[0]] else []) + Select(saved[1..], ids, present)
  }

  function Gone(saved: seq<Device>, found: seq<Device>): seq<Device> {
    Select(saved, Ids(found), false)
  }

  function Kept(saved: seq<Device>, found: seq<Device>): seq<Device> {
    Select(saved, Ids(found), true)
  }

  function Erase(ds: seq<Device>, i: nat): seq<Device>
    requires i < |ds|
  {
    ds[..i] + ds[i + 1..]
  }

  /** Adding the first unseen device and starting the scan again adds the rest in the same order. */
  lemma {:induction false} UnseenStep(saved: seq<Device>, found: seq<Device>)
    ensures var i := FirstNotIn(found, Ids(saved));
            Unseen(saved, found) == if i == |found| then [] else [found[i]] + Unseen(saved + [found[i]], found)
    decreases |found|
  {
    if found != [] {
      var i := FirstNotIn(found, Ids(saved));
      if i < |found| {
        IdsConcat(saved, [found[i]]);
        IdsOne(found[i]);
      }
      if i > 0 {
        UnseenStep(saved, found[1..]);
      }
    }
  }

  /** Erasing the first device that is gone leaves the others to be erased in the same order. */
  lemma {:induction false} SelectStep(saved: seq<Device>, ids: set<string>)
    ensures var i := FirstNotIn(saved, ids);
            if i == |saved| then Select(saved, ids, false) == [] && Select(saved, ids, true) == saved
            else && Select(saved, ids, false) == [saved[i]] + Select(Erase(saved, i), ids, false)
                 && Select(saved, ids, true) == Select(Erase(saved, i), ids, true)
    decreases |saved|
  {
    if saved != [] {
      var i := FirstNotIn(saved, ids);
      if i > 0 {
        SelectStep(saved[1..], ids);
        if i < |saved| {
          assert Erase(saved, i)[1..] == Erase(saved[1..], i - 1);
        }
      } else {
        assert Erase(saved, 0) == saved[1..];
      }
    }
  }

  ghost predicate DistinctIds(ds: seq<Device>) {
    forall i, j | 0 <= i < j < |ds| :: ds[i].id != ds[j].id
  }

  /** Exactly one addition per distinct unseen id. */
  lemma {:induction false} UnseenIds(saved: seq<Device>, found: seq<Device>)
    ensures Ids(Unseen(saved, found)) == Ids(found) - Ids(saved)
    ensures DistinctIds(Unseen(saved, found))
    decreases |found|
  {
    if found != [] {
      var d, rest := found[0], found[1..];
      assert found == [d] + rest;
      IdsConcat([d], rest);
      IdsOne(d);
      if d.id in Ids(saved) {
        UnseenIds(saved, rest);
      } else {
        IdsConcat(saved, [d]);
        UnseenIds(saved + [d], rest);
        var tail := Unseen(saved + [d], rest);
        IdsConcat([d], tail);
        forall i | 0 <= i < |tail| ensures tail[i].id != d.id {
          assert tail[i].id in Ids(tail);
        }
      }
    }
  }

  lemma {:induction false} SelectIds(saved: seq<Device>, ids: set<string>, present: bool)
    ensures Ids(Select(saved, ids, present)) == if present then Ids(saved) * ids else Ids(saved) - ids
    decreases |saved|
  {
    if saved != [] {
      var d, rest := saved[0], saved[1..];
      assert saved == [d] + rest;
      IdsConcat([d], rest);
      IdsOne(d);
      SelectIds(rest, ids, present);
      var tail := Select(rest, ids, present);
      IdsConcat([d], tail);
      assert Select(saved, ids, present) == if (d.id in ids) == present then [d] + tail else tail;
    }
  }

  lemma {:induction false} SelectExtend(saved: seq<Device>, d: Device, ids: set<string>, present: bool)
    ensures Select(saved + [d], ids, present) ==
            Select(saved, ids, present) + if (d.id in ids) == present then [d] else []
    decreases |saved|
  {
    if saved == [] {
      assert (saved + [d])[1..] == [];
    } else {
      SelectExtend(saved[1..], d, ids, present);
      var head := if (saved[0].id in ids) == present then [saved[0]] else [];
      assert (saved + [d])[1..] == saved[1..] + [d] && (saved + [d])[0] == saved[0];
      assert Select(saved + [d], ids, present) == head + Select(saved[1..] + [d], ids, present);
      assert Select(saved, ids, present) == head + Select(saved[1..], ids, present);
      hide Select;
    }
  }

  /** The indices of the entries that are present, or absent, in increasing order. */
  function Positions(saved: seq<Device>, ids: set<string>, present: bool): seq<nat> {
    if saved == [] then []
    else
      var n := |saved| - 1;
      Positions(saved[..n], ids, present) + if (saved[n].id in ids) == present then [n] else []
  }

  /** picked lists the entries at pos, which are all those that are present, or absent, in order. */
  ghost predicate IsSubsequence(saved: seq<Device>, ids: set<string>, present: bool, pos: seq<nat>, picked: seq<Device>) {
    && |pos| == |picked|
    && (forall k | 0 <= k < |pos| :: pos[k] < |saved| && picked[k] == saved[pos[k]])
    && (forall j, k | 0 <= j < k < |pos| :: pos[j] < pos[k])
    && (forall i: nat | i < |saved| :: i in pos <==> (saved[i].id in ids) == present)
  }

  lemma SubsequenceExtend(saved: seq<Device>, d: Device, ids: set<string>, present: bool,
                          pos: seq<nat>, picked: seq<Device>)
    requires IsSubsequence(saved, ids, present, pos, picked)
    ensures if (d.id in ids) == present
            then IsSubsequence(saved + [d], ids, present, pos + [|saved|], picked + [d])
            else IsSubsequence(saved + [d], ids, present, pos, picked)
  {
    assert |saved| !in pos;
    assert forall i: nat :: i in pos + [|saved|] <==> i in pos || i == |saved|;
  }

  lemma PositionsExtend(saved: seq<Device>, d: Device, ids: set<string>, present: bool)
    ensures Positions(saved + [d], ids, present) ==
            Positions(saved, ids, present) + if (d.id in ids) == present then [|saved|] else []
  {
    assert (saved + [d])[..|saved|] == saved;
  }

  lemma NothingPicked(ids: set<string>, present: bool)
    ensures IsSubsequence([], ids, present, Positions([], ids, present), Select([], ids, present))
  {
  }

  /** Each entry that is present, or absent, is picked once for every time it is listed, in saved order. */
  lemma {:induction false} SelectIsSubsequence(saved: seq<Device>, ids: set<string>, present: bool)
    ensures IsSubsequence(saved, ids, present, Positions(saved, ids, present), Select(saved, ids, present))
    decreases |saved|
  {
    hide *;
    if saved == [] {
      NothingPicked(ids, present);
    } else {
      var before, d := saved[..|saved| - 1], saved[|saved| - 1];
      assert saved == before + [d];
      SelectIsSubsequence(before, ids, present);
      SelectExtend(before, d, ids, present);
      PositionsExtend(before, d, ids, present);
      var pos, picked := Positions(before, ids, present), Select(before, ids, present);
      assert pos + [] == pos && picked + [] == picked;
      SubsequenceExtend(before, d, ids, present, pos, picked);
    }
  }

  // ---------- All three lists ----------

  function NoticesOf(action: Action, devType: DeviceType, ds: seq<Device>): (ns: seq<Notice>)
    ensures |ns| == |ds|
  {
    seq(|ds|, i requires 0 <= i < |ds| => Notice(action, devType, ds[i].id, ds[i].name))
  }

  /** The devices a run still has to report, list by list. */
  function Due(action: Action, saved: Lists, e: Lists): Lists {
    match action
    case Added =>
      Lists(Unseen(saved.audioIn, e.audioIn), Unseen(saved.audioOut, e.audioOut), Unseen(saved.video, e.video))
    case Removed =>
      Lists(Gone(saved.audioIn, e.audioIn), Gone(saved.audioOut, e.audioOut), Gone(saved.video, e.video))
  }

  function Notices(action: Action, due: Lists): seq<Notice> {
    NoticesOf(action, AudioIn, due.audioIn) + NoticesOf(action, AudioOut, due.audioOut)
    + NoticesOf(action, Video, due.video)
  }

  /** The notifications a run still has to send. */
  function Pending(action: Action, saved: Lists, e: Lists): seq<Notice> {
    Notices(action, Due(action, saved, e))
  }

  function ReconcileOne(action: Action, saved: seq<Device>, found: seq<Device>): seq<Device> {
    match action
    case Added => saved + Unseen(saved, found)
    case Removed => Kept(saved, found)
  }

  /** The saved lists when the run is over. */
  function Reconcile(action: Action, saved: Lists, e: Lists): Lists {
    Lists(ReconcileOne(action, saved.audioIn, e.audioIn), ReconcileOne(action, saved.audioOut, e.audioOut),
          ReconcileOne(action, saved.video, e.video))
  }

  /** One list after one successful step. */
  function StepOne(action: Action, saved: seq<Device>, found: seq<Device>): seq<Device> {
    match action
    case Added =>
      var i := FirstNotIn(found, Ids(saved));
      if i < |found| then saved + [found[i]] else saved
    case Removed =>
      var i := FirstNotIn(saved, Ids(found));
      if i < |saved| then Erase(saved, i) else saved
  }

  function DueOne(action: Action, saved: seq<Device>, found: seq<Device>): seq<Device> {
    match action
    case Added => Unseen(saved, found)
    case Removed => Gone(saved, found)
  }

  /** One step takes the first due device off the list's due devices and does not change where the run ends. */
  lemma StepOneProgress(action: Action, saved: seq<Device>, found: seq<Device>)
    ensures var saved' := StepOne(action, saved, found);
            && ReconcileOne(action, saved', found) == ReconcileOne(action, saved, found)
            && (if DueOne(action, saved, found) == [] then
                  saved' == saved && ReconcileOne(action, saved, found) == saved
                else DueOne(action, saved', found) == DueOne(action, saved, found)[1..])
  {
    match action
    case Added =>
      UnseenStep(saved, found);
      hide Unseen, Ids;
      var i := FirstNotIn(found, Ids(saved));
      if i < |found| {
        assert saved + ([found[i]] + Unseen(saved + [found[i]], found))
            == (saved + [found[i]]) + Unseen(saved + [found[i]], found);
      }
    case Removed =>
      SelectStep(saved, Ids(found));
      hide Select, Ids;
  }

  /** The first list with a due device takes the step. */
  function Step(action: Action, saved: Lists, e: Lists): Lists {
    var due := Due(action, saved, e);
    if due.audioIn != [] then saved.(audioIn := StepOne(action, saved.audioIn, e.audioIn))
    else if due.audioOut != [] then saved.(audioOut := StepOne(action, saved.audioOut, e.audioOut))
    else saved.(video := StepOne(action, saved.video, e.video))
  }

  /** The due devices without the first one. */
  function Rest(due: Lists): Lists {
    if due.audioIn != [] then due.(audioIn := due.audioIn[1..])
    else if due.audioOut != [] then due.(audioOut := due.audioOut[1..])
    else if due.video != [] then due.(video := due.video[1..])
    else due
  }

  lemma NoticesRest(action: Action, due: Lists)
    ensures Notices(action, due) == [] <==> due == Lists([], [], [])
    ensures Notices(action, due) != [] ==> Notices(action, Rest(due)) == Notices(action, due)[1..]
  {
    NoticesOfRest(action, AudioIn, due.audioIn);
    NoticesOfRest(action, AudioOut, due.audioOut);
    NoticesOfRest(action, Video, due.video);
    hide NoticesOf;
    RestOfThree(NoticesOf(action, AudioIn, due.audioIn), NoticesOf(action, AudioOut, due.audioOut),
                NoticesOf(action, Video, due.video));
  }

  lemma NoticesOfRest(action: Action, devType: DeviceType, ds: seq<Device>)
    ensures ds != [] ==> NoticesOf(action, devType, ds)[1..] == NoticesOf(action, devType, ds[1..])
  {
  }

  lemma RestOfThree<T>(a: seq<T>, b: seq<T>, c: seq<T>)
    ensures a != [] ==> (a + b + c)[1..] == a[1..] + b + c
    ensures a == [] && b != [] ==> (a + b + c)[1..] == a + b[1..] + c
    ensures a == [] && b == [] && c != [] ==> (a + b + c)[1..] == a + b + c[1..]
  {
  }

  lemma DueIsDueOne(action: Action, saved: Lists, e: Lists)
    ensures Due(action, saved, e)
         == Lists(DueOne(action, saved.audioIn, e.audioIn), DueOne(action, saved.audioOut, e.audioOut),
                  DueOne(action, saved.video, e.video))
  {
  }

  lemma StepProgress(action: Action, saved: Lists, e: Lists)
    ensures var saved' := Step(action, saved, e);
            && Reconcile(action, saved', e) == Reconcile(action, saved, e)
            && (if Pending(action, saved, e) == [] then saved' == saved && Reconcile(action, saved, e) == saved
                else Pending(action, saved', e) == Pending(action, saved, e)[1..])
  {
    hide StepOne, DueOne, ReconcileOne, Due, Notices;
    StepOneProgress(action, saved.audioIn, e.audioIn);
    StepOneProgress(action, saved.audioOut, e.audioOut);
    StepOneProgress(action, saved.video, e.video);
    DueIsDueOne(action, saved, e);
    DueIsDueOne(action, Step(action, saved, e), e);
    NoticesRest(action, Due(action, saved, e));
  }

  // ---------- What the application is told ----------

  /** One list gained an enumerated device with a new id, the one that n names. */
  ghost predicate Gained(n: Notice, before: seq<Device>, after: seq<Device>, found: seq<Device>) {
    && after == before + [Device(n.id, n.name)]
    && Device(n.id, n.name) in found
    && forall d | d in before :: d.id != n.id
  }

  /** One list lost a device whose id is not enumerated, the one that n names. */
  ghost predicate Lost(n: Notice, before: seq<Device>, after: seq<Device>, found: seq<Device>) {
    && (exists i | 0 <= i < |before| :: before[i] == Device(n.id, n.name) && after == before[..i] + before[i + 1..])
    && forall d | d in found :: d.id != n.id
  }

  ghost predicate Changed(n: Notice, before: seq<Device>, after: seq<Device>, found: seq<Device>) {
    match n.action
    case Added => Gained(n, before, after, found)
    case Removed => Lost(n, before, after, found)
  }

  /** n reports the one change from before to after: its kind, its list, and the id and name of its device. */
  ghost predicate Reports(n: Notice, before: Lists, after: Lists, e: Lists) {
    match n.devType
    case AudioIn =>
      Changed(n, before.audioIn, after.audioIn, e.audioIn) && after.audioOut == before.audioOut && after.video == before.video
    case AudioOut =>
      Changed(n, before.audioOut, after.audioOut, e.audioOut) && after.audioIn == before.audioIn && after.video == before.video
    case Video =>
      Changed(n, before.video, after.video, e.video) && after.audioIn == before.audioIn && after.audioOut == before.audioOut
  }

  lemma IdsMembers(ds: seq<Device>, id: string)
    ensures id in Ids(ds) <==> exists d | d in ds :: d.id == id
  {
    if id in Ids(ds) {
      var i :| 0 <= i < |ds| && ds[i].id == id;
      assert ds[i] in ds;
    }
  }

  lemma ChangedByStep(n: Notice, before: seq<Device>, found: seq<Device>)
    requires DueOne(n.action, before, found) != []
    requires DueOne(n.action, before, found)[0] == Device(n.id, n.name)
    ensures Changed(n, before, StepOne(n.action, before, found), found)
  {
    IdsMembers(before, n.id);
    IdsMembers(found, n.id);
    match n.action
    case Added =>
      UnseenStep(before, found);
      hide Unseen, Ids;
    case Removed =>
      SelectStep(before, Ids(found));
      hide Select, Ids;
      var i := FirstNotIn(before, Ids(found));
      assert before[i] == Device(n.id, n.name);
  }

  /** The first pending notice reports what the step does. */
  lemma PendingReports(action: Action, saved: Lists, e: Lists)
    requires Pending(action, saved, e) != []
    ensures Pending(action, saved, e)[0].action == action
    ensures Reports(Pending(action, saved, e)[0], saved, Step(action, saved, e), e)
  {
    var n := Pending(action, saved, e)[0];
    DueIsDueOne(action, saved, e);
    var due := Due(action, saved, e);
    FirstNotice(action, due);
    hide Due, Pending, Notices, NoticesOf, DueOne, StepOne, Changed;
    if due.audioIn != [] {
      ChangedByStep(n, saved.audioIn, e.audioIn);
    } else if due.audioOut != [] {
      ChangedByStep(n, saved.audioOut, e.audioOut);
    } else {
      ChangedByStep(n, saved.video, e.video);
    }
  }

  lemma FirstNotice(action: Action, due: Lists)
    requires Notices(action, due) != []
    ensures var n := Notices(action, due)[0];
            && n.action == action
            && (due.audioIn != [] ==> n.devType == AudioIn && due.audioIn[0] == Device(n.id, n.name))
            && (due.audioIn == [] && due.audioOut != [] ==> n.devType == AudioOut && due.audioOut[0] == Device(n.id, n.name))
            && (due.audioIn == due.audioOut == [] ==>
                  due.video != [] && n.devType == Video && due.video[0] == Device(n.id, n.name))
  {
  }

  function Listed(l: Lists, devType: DeviceType): seq<Device> {
    match devType
    case AudioIn => l.audioIn
    case AudioOut => l.audioOut
    case Video => l.video
  }

  /** The devices that the notices of one list name, in order. */
  function Told(ns: seq<Notice>, devType: DeviceType): seq<Device> {
    if ns == [] then []
    else (if ns[0].devType == devType then [Device(ns[0].id, ns[0].name)] else []) + Told(ns[1..], devType)
  }

  lemma {:induction false} ToldConcat(a: seq<Notice>, b: seq<Notice>, devType: DeviceType)
    ensures Told(a + b, devType) == Told(a, devType) + Told(b, devType)
    decreases |a|
  {
    if a == [] {
      assert a + b == b;
    } else {
      assert (a + b)[1..] == a[1..] + b && (a + b)[0] == a[0];
      ToldConcat(a[1..], b, devType);
    }
  }

  lemma {:induction false} ToldOf(action: Action, devType: DeviceType, ds: seq<Device>, asked: DeviceType)
    ensures Told(NoticesOf(action, devType, ds), asked) == if asked == devType then ds else []
    decreases |ds|
  {
    if ds != [] {
      ToldOf(action, devType, ds[1..], asked);
      NoticesOfRest(action, devType, ds);
      assert ds == [ds[0]] + ds[1..];
    }
  }

  lemma ToldOfNotices(action: Action, due: Lists, devType: DeviceType)
    ensures Told(Notices(action, due), devType) == Listed(due, devType)
  {
    var a, b, c := NoticesOf(action, AudioIn, due.audioIn), NoticesOf(action, AudioOut, due.audioOut),
                   NoticesOf(action, Video, due.video);
    assert Notices(action, due) == a + b + c;
    hide Told, NoticesOf, Notices;
    ToldConcat(a + b, c, devType);
    ToldConcat(a, b, devType);
    ToldOf(action, AudioIn, due.audioIn, devType);
    ToldOf(action, AudioOut, due.audioOut, devType);
    ToldOf(action, Video, due.video, devType);
  }

  lemma NoticesAction(action: Action, due: Lists)
    ensures forall n | n in Notices(action, due) :: n.action == action
  {
  }

  /** One list after a run, and the devices the run told of: those added at its end, or those erased from it. */
  ghost predicate ToldRight(action: Action, told: seq<Device>, before: seq<Device>, after: seq<Device>, found: seq<Device>) {
    match action
    case Added => after == before + told
    case Removed => told == Select(before, Ids(found), false) && after == Select(before, Ids(found), true)
  }

  /** A whole run tells, list by list and in order, of exactly the devices it adds or erases. */
  lemma RunTells(action: Action, saved: Lists, e: Lists)
    ensures var ns, after := Pending(action, saved, e), Reconcile(action, saved, e);
            && (forall n | n in ns :: n.action == action)
            && forall t :: ToldRight(action, Told(ns, t), Listed(saved, t), Listed(after, t), Listed(e, t))
  {
    var due := Due(action, saved, e);
    NoticesAction(action, due);
    hide Told, Notices, Unseen, Select, Ids;
    forall t ensures Told(Pending(action, saved, e), t) == Listed(due, t) {
      ToldOfNotices(action, due, t);
    }
  }

  // ---------- The manager ----------

  /** Handler runs a queued message still costs once nothing is left to report: one, or two when it may retry. */
  function Probes(queue: seq<bool>): nat {
    if queue == [] then 0 else Probes(queue[..|queue| - 1]) + if queue[|queue| - 1] then 2 else 1
  }

  /** Every queued message may retry, as the ones that signals post do. */
  ghost predicate AllRetry(queue: seq<bool>) {
    forall i | 0 <= i < |queue| :: queue[i]
  }

  class SkinnySipManager {
    var audioCaptureDevices: seq<Device>
    var audioPlayoutDevices: seq<Device>
    var videoCaptureDevices: seq<Device>
    var dev: Notice
    var queue: seq<bool>       // queued MSG_DEVICES_CHANGED, each with its retry flag
    var notified: seq<Notice>  // posted to the browser thread
    ghost var FailedProbes: nat
    ghost var HandlerRuns: nat

    function Saved(): Lists
      reads this
    {
      Lists(audioCaptureDevices, audioPlayoutDevices, videoCaptureDevices)
    }

    constructor (saved: Lists)
      ensures Saved() == saved && queue == [] && notified == []
    {
      audioCaptureDevices, audioPlayoutDevices, videoCaptureDevices := saved.audioIn, saved.audioOut, saved.video;
      dev := Notice(Removed, AudioIn, "", "");
      queue, notified := [], [];
      FailedProbes, HandlerRuns := 0, 0;
    }

    /** The nested scan: the first device of ds that no device of others equals, or |ds|. */
    static method FindUnmatched(ds: seq<Device>, others: seq<Device>) returns (i: nat)
      ensures i == FirstNotIn(ds, Ids(others))
    {
      i := 0;
      while i < |ds|
        invariant 0 <= i <= |ds|
        invariant forall j | 0 <= j < i :: ds[j].id in Ids(others)
      {
        var found := false;
        var k := 0;
        while k < |others|
          invariant 0 <= k <= |others|
          invariant !found && forall j | 0 <= j < k :: others[j].id != ds[i].id
        {
          if others[k].id == ds[i].id {
            found := true;
            break;
          }
          k := k + 1;
        }
        if !found {
          return;
        }
        assert others[k].id in Ids(others);
        i := i + 1;
      }
    }

    /** Reports and saves the first unseen device of the first list that has one. */
    method FindAndSetAddedDevice(e: Lists) returns (gotAddedDevice: bool)
      modifies this`audioCaptureDevices, this`audioPlayoutDevices, this`videoCaptureDevices, this`dev
      ensures gotAddedDevice <==> Pending(Added, old(Saved()), e) != []
      ensures gotAddedDevice ==> dev == Pending(Added, old(Saved()), e)[0]
      ensures gotAddedDevice ==> dev.action == Added && Reports(dev, old(Saved()), Saved(), e)
      ensures !gotAddedDevice ==> dev == old(dev)
      ensures Saved() == Step(Added, old(Saved()), e)
    {
      if Pending(Added, Saved(), e) != [] {
        PendingReports(Added, Saved(), e);
      }
      hide Reports;
      UnseenStep(audioCaptureDevices, e.audioIn);
      UnseenStep(audioPlayoutDevices, e.audioOut);
      UnseenStep(videoCaptureDevices, e.video);
      hide Unseen, Ids;
      var i := FindUnmatched(e.audioIn, audioCaptureDevices);
      if i < |e.audioIn| {
        dev := Notice(Added, AudioIn, e.audioIn[i].id, e.audioIn[i].name);
        audioCaptureDevices := audioCaptureDevices + [e.audioIn[i]];
        return true;
      }
      i := FindUnmatched(e.audioOut, audioPlayoutDevices);
      if i < |e.audioOut| {
        dev := Notice(Added, AudioOut, e.audioOut[i].id, e.audioOut[i].name);
        audioPlayoutDevices := audioPlayoutDevices + [e.audioOut[i]];
        return true;
      }
      i := FindUnmatched(e.video, videoCaptureDevices);
      if i < |e.video| {
        dev := Notice(Added, Video, e.video[i].id, e.video[i].name);
        videoCaptureDevices := videoCaptureDevices + [e.video[i]];
        return true;
      }
      return false;
    }

    /** Reports and erases the first saved device that is gone, of the first list that has one. */
    method FindAndSetRemovedDevice(e: Lists) returns (gotRemovedDevice: bool)
      modifies this`audioCaptureDevices, this`audioPlayoutDevices, this`videoCaptureDevices, this`dev
      ensures gotRemovedDevice <==> Pending(Removed, old(Saved()), e) != []
      ensures gotRemovedDevice ==> dev == Pending(Removed, old(Saved()), e)[0]
      ensures gotRemovedDevice ==> dev.action == Removed && Reports(dev, old(Saved()), Saved(), e)
      ensures !gotRemovedDevice ==> dev == old(dev)
      ensures Saved() == Step(Removed, old(Saved()), e)
    {
      if Pending(Removed, Saved(), e) != [] {
        PendingReports(Removed, Saved(), e);
      }
      hide Reports;
      SelectStep(audioCaptureDevices, Ids(e.audioIn));
      SelectStep(audioPlayoutDevices, Ids(e.audioOut));
      SelectStep(videoCaptureDevices, Ids(e.video));
      hide Select, Ids;
      var i := FindUnmatched(audioCaptureDevices, e.audioIn);
      if i < |audioCaptureDevices| {
        dev := Notice(Removed, AudioIn, audioCaptureDevices[i].id, audioCaptureDevices[i].name);
        audioCaptureDevices := Erase(audioCaptureDevices, i);
        return true;
      }
      i := FindUnmatched(audioPlayoutDevices, e.audioOut);
      if i < |audioPlayoutDevices| {
        dev := Notice(Removed, AudioOut, audioPlayoutDevices[i].id, audioPlayoutDevices[i].name);
        audioPlayoutDevices := Erase(audioPlayoutDevices, i);
        return true;
      }
      i := FindUnmatched(videoCaptureDevices, e.video);
      if i < |videoCaptureDevices| {
        dev := Notice(Removed, Video, videoCaptureDevices[i].id, videoCaptureDevices[i].name);
        videoCaptureDevices := Erase(videoCaptureDevices, i);
        return true;
      }
      return false;
    }

    method OnDevicesChange(added: bool)
      modifies this`dev, this`queue
      ensures dev == old(dev).(action := if added then Added else Removed)
      ensures queue == old(queue) + [true]
    {
      dev := dev.(action := if added then Added else Removed);
      queue := queue + [true];
    }

    /** MSG_DEVICES_CHANGED: one device is reported and the message posts itself again, or the probe fails. */
    method HandleDevicesChanged(retry: bool, e: Lists)
      modifies this
      ensures dev.action == old(dev).action
      ensures Saved() == Step(old(dev).action, old(Saved()), e)
      ensures var pending := Pending(old(dev).action, old(Saved()), e);
              if pending == [] then
                && queue == old(queue) + (if retry then [false] else [])
                && notified == old(notified) && FailedProbes == old(FailedProbes) + 1
              else
                && queue == old(queue) + [true]
                && notified == old(notified) + [pending[0]] && FailedProbes == old(FailedProbes)
      ensures notified != old(notified) ==>
                && |notified| == |old(notified)| + 1 && notified[|old(notified)|].action == old(dev).action
                && Reports(notified[|old(notified)|], old(Saved()), Saved(), e)
      ensures HandlerRuns == old(HandlerRuns) + 1
    {
      HandlerRuns := HandlerRuns + 1;
      ghost var pending := Pending(dev.action, Saved(), e);
      assert pending != [] ==> pending[0].action == dev.action;
      hide Reports;
      var got;
      if dev.action == Added {
        got := FindAndSetAddedDevice(e);
      } else {
        got := FindAndSetRemovedDevice(e);
      }
      if !got {
        FailedProbes := FailedProbes + 1;
        if retry {
          queue := queue + [false];
        }
        return;
      }
      OnDevicesChange(dev.action == Added);
      notified := notified + [dev];
    }

    /** The message loop takes queued message k. */
    method TakeMessage(k: nat, e: Lists)
      requires k < |queue|
      modifies this
      ensures dev.action == old(dev).action && HandlerRuns == old(HandlerRuns) + 1
      ensures Reconcile(dev.action, Saved(), e) == Reconcile(dev.action, old(Saved()), e)
      ensures Pending(dev.action, old(Saved()), e) == [] ==>
                && Pending(dev.action, Saved(), e) == [] && notified == old(notified)
                && FailedProbes == old(FailedProbes) + 1 && Probes(queue) == Probes(old(queue)) - 1
      ensures var pending := Pending(dev.action, old(Saved()), e);
              pending != [] ==>
                && Pending(dev.action, Saved(), e) == pending[1..] && notified == old(notified) + [pending[0]]
                && FailedProbes == old(FailedProbes)
                && queue != [] && (AllRetry(old(queue)) ==> AllRetry(queue) && Probes(queue) == Probes(old(queue)))
    {
      StepProgress(dev.action, Saved(), e);
      ProbesRemove(queue, k);
      var retry := queue[k];
      queue := queue[..k] + queue[k + 1..];
      ProbesExtend(queue, true);
      ProbesExtend(queue, false);
      assert queue + [] == queue;
      hide Pending, Reconcile, Step, Probes;
      HandleDevicesChanged(retry, e);
    }

    /** The loop: it goes on while a message is queued. */
    method DrainQueue(e: Lists)
      requires queue != []
      modifies this
      ensures queue == []
      ensures Saved() == Reconcile(old(dev).action, old(Saved()), e)
      ensures notified == old(notified) + Pending(old(dev).action, old(Saved()), e)
      ensures AllRetry(old(queue)) ==> FailedProbes == old(FailedProbes) + 2 * |old(queue)|
      ensures HandlerRuns - old(HandlerRuns)
           == |Pending(old(dev).action, old(Saved()), e)| + FailedProbes - old(FailedProbes)
    {
      ghost var action, total, goal := dev.action, Pending(dev.action, Saved(), e), Reconcile(dev.action, Saved(), e);
      ghost var n, fromSignals := 0, AllRetry(queue);
      if fromSignals {
        ProbesAllRetry(queue);
      }
      assert Probes([]) == 0;
      hide *;
      while queue != []
        invariant dev.action == action && n <= |total| && Pending(action, Saved(), e) == total[n..]
        invariant Reconcile(action, Saved(), e) == goal
        invariant notified == old(notified) + total[..n]
        invariant n < |total| ==> queue != []
        invariant fromSignals && n < |total| ==> AllRetry(queue)
        invariant fromSignals ==> FailedProbes + Probes(queue) == old(FailedProbes) + 2 * |old(queue)|
        invariant HandlerRuns - old(HandlerRuns) == n + FailedProbes - old(FailedProbes)
        decreases |total| - n, Probes(queue)
      {
        var k :| 0 <= k < |queue|;
        OneFurther(total, n);
        TakeMessage(k, e);
        if n < |total| {
          n := n + 1;
        }
      }
      NothingDue(action, Saved(), e);
    }

    /**
     * The message loop with a fixed enumeration and no further signal, from any state with a message
     * queued and taking the messages in any order. The run is finite, sends one notification per due
     * device in list order, and ends with the reconciled lists. When every queued message came from a
     * signal, each costs exactly two failing probes.
     */
    method RunToQuiescence(e: Lists)
      requires queue != []
      modifies this
      ensures queue == []
      ensures Saved() == Reconcile(old(dev).action, old(Saved()), e)
      ensures notified == old(notified) + Pending(old(dev).action, old(Saved()), e)
      ensures var told := notified[|old(notified)|..];
              && |old(notified)| <= |notified| && (forall n | n in told :: n.action == old(dev).action)
              && forall t :: ToldRight(old(dev).action, Told(told, t), Listed(old(Saved()), t), Listed(Saved(), t), Listed(e, t))
      ensures AllRetry(old(queue)) ==> FailedProbes == old(FailedProbes) + 2 * |old(queue)|
      ensures HandlerRuns - old(HandlerRuns)
           == |Pending(old(dev).action, old(Saved()), e)| + FailedProbes - old(FailedProbes)
    {
      hide *;
      RunTells(dev.action, Saved(), e);
      After(notified, Pending(dev.action, Saved(), e));
      DrainQueue(e);
    }
  }

  lemma OneFurther<T>(s: seq<T>, n: nat)
    requires n <= |s|
    ensures s[n..] == [] <==> n == |s|
    ensures n < |s| ==> s[n..][0] == s[n] && s[n..][1..] == s[n + 1..] && s[..n + 1] == s[..n] + [s[n]]
  {
  }

  lemma After<T>(a: seq<T>, b: seq<T>)
    ensures (a + b)[|a|..] == b
  {
  }

  lemma NothingDue(action: Action, saved: Lists, e: Lists)
    requires Pending(action, saved, e) == []
    ensures Reconcile(action, saved, e) == saved
  {
    StepProgress(action, saved, e);
  }

  lemma ProbesExtend(queue: seq<bool>, retry: bool)
    ensures Probes(queue + [retry]) == Probes(queue) + if retry then 2 else 1
  {
    assert (queue + [retry])[..|queue|] == queue;
  }

  lemma {:induction false} ProbesRemove(queue: seq<bool>, k: nat)
    requires k < |queue|
    ensures Probes(queue) == Probes(queue[..k] + queue[k + 1..]) + if queue[k] then 2 else 1
    decreases |queue|
  {
    var n := |queue| - 1;
    if k < n {
      ProbesRemove(queue[..n], k);
      assert (queue[..k] + queue[k + 1..])[..n - 1] == queue[..n][..k] + queue[..n][k + 1..];
    } else {
      assert queue[..k] + queue[k + 1..] == queue[..n];
    }
  }

  lemma {:induction false} ProbesAllRetry(queue: seq<bool>)
    requires AllRetry(queue)
    ensures Probes(queue) == 2 * |queue|
    decreases |queue|
  {
    if queue != [] {
      ProbesAllRetry(queue[..|queue| - 1]);
    }
  }

  // ---------- What a run achieves ----------

  ghost predicate SameIds(a: Lists, b: Lists) {
    Ids(a.audioIn) == Ids(b.audioIn) && Ids(a.audioOut) == Ids(b.audioOut) && Ids(a.video) == Ids(b.video)
  }

  ghost predicate IdsWithin(a: Lists, b: Lists) {
    Ids(a.audioIn) <= Ids(b.audioIn) && Ids(a.audioOut) <= Ids(b.audioOut) && Ids(a.video) <= Ids(b.video)
  }

  lemma ReconcileOneIds(action: Action, saved: seq<Device>, found: seq<Device>)
    ensures Ids(ReconcileOne(action, saved, found))
         == if action == Added then Ids(saved) + Ids(found) else Ids(saved) * Ids(found)
  {
    match action
    case Added =>
      UnseenIds(saved, found);
      IdsConcat(saved, Unseen(saved, found));
    case Removed =>
      SelectIds(saved, Ids(found), true);
  }

  /** A run of one kind alone makes the saved ids match exactly when the other kind had nothing to do. */
  lemma OneActionReconcilesExactlyWhen(action: Action, saved: Lists, e: Lists)
    ensures SameIds(Reconcile(action, saved, e), e)
       <==> if action == Added then IdsWithin(saved, e) else IdsWithin(e, saved)
  {
    ReconcileOneIds(action, saved.audioIn, e.audioIn);
    ReconcileOneIds(action, saved.audioOut, e.audioOut);
    ReconcileOneIds(action, saved.video, e.video);
  }

  /** An added and a removed run, in either order, make the saved ids equal the enumerated ones. */
  lemma BothActionsReconcile(saved: Lists, e: Lists)
    ensures SameIds(Reconcile(Removed, Reconcile(Added, saved, e), e), e)
    ensures SameIds(Reconcile(Added, Reconcile(Removed, saved, e), e), e)
  {
    var a, r := Reconcile(Added, saved, e), Reconcile(Removed, saved, e);
    ReconcileOneIds(Added, saved.audioIn, e.audioIn);
    ReconcileOneIds(Added, saved.audioOut, e.audioOut);
    ReconcileOneIds(Added, saved.video, e.video);
    ReconcileOneIds(Removed, saved.audioIn, e.audioIn);
    ReconcileOneIds(Removed, saved.audioOut, e.audioOut);
    ReconcileOneIds(Removed, saved.video, e.video);
    OneActionReconcilesExactlyWhen(Removed, a, e);
    OneActionReconcilesExactlyWhen(Added, r, e);
  }

  /**
   * The action is shared by all queued messages, so of an added and a removed signal in one burst
   * only the later is carried out: here the new device is never reported.
   */
  method BurstLosesAddition() returns (m: SkinnySipManager)
    ensures !SameIds(m.Saved(), Lists([Device("mic", "Mic")], [], [])) && m.notified == [] && m.queue == []
  {
    var e := Lists([Device("mic", "Mic")], [], []);
    m := new SkinnySipManager(Lists([], [], []));
    m.OnDevicesChange(true);
    m.OnDevicesChange(false);
    m.RunToQuiescence(e);
    OneActionReconcilesExactlyWhen(Removed, Lists([], [], []), e);
    assert e.audioIn[0].id in Ids(e.audioIn);
  }
}
