/** winnetwork_monitor.cpp, and the network handlers of skinnysipmanager.cpp that receive its messages. */
module NetworkMonitoring {
  import opened Options

  const SOFTWARE_LOOPBACK: nat := 24  // IF_TYPE_SOFTWARE_LOOPBACK

  /** NET_LUID: the interface type is part of the identifier. */
  datatype Luid = Luid(ifType: nat, index: nat)

  datatype Row = Row(luid: Luid, family: nat, connected: bool) {
    predicate Counts() {
      connected && luid.ifType != SOFTWARE_LOOPBACK
    }
  }

  datatype Message = InterfaceUp | InterfaceDown

  /** Row i belongs to another interface, and that interface is connected. */
  predicate OtherConnected(rows: seq<Row>, i: nat, luid: Luid)
    requires i < |rows|
  {
    rows[i].luid != luid && rows[i].Counts()
  }

  predicate AnyOtherConnected(rows: seq<Row>, luid: Luid) {
    exists i: nat | i < |rows| :: OtherConnected(rows, i, luid)
  }

  /** Row i is one that a change to entry would overwrite. */
  predicate Toggles(row: Row, entry: Row) {
    row.luid == entry.luid && row.luid.ifType != SOFTWARE_LOOPBACK && row.connected != entry.connected
  }

  /** The first row that entry changes, or the number of rows. */
  function FirstToggled(rows: seq<Row>, entry: Row): (k: nat)
    ensures k <= |rows|
    ensures k < |rows| ==> Toggles(rows[k], entry)
    ensures forall i | 0 <= i < k :: !Toggles(rows[i], entry)
  {
    if rows == [] then 0
    else if Toggles(rows[0], entry) then 0
    else 1 + FirstToggled(rows[1..], entry)
  }

  /** The message posted when row k takes over entry: only if no other interface is connected. */
  function Posted(rows: seq<Row>, entry: Row): seq<Message> {
    if AnyOtherConnected(rows, entry.luid) then []
    else if entry.connected then [InterfaceUp] else [InterfaceDown]
  }

  function NextRows(rows: seq<Row>, entry: Row): (rows': seq<Row>)
    ensures |rows'| == |rows|
  {
    var k := FirstToggled(rows, entry);
    if k < |rows| then rows[k := entry] else rows
  }

  function NextPosts(rows: seq<Row>, entry: Row): seq<Message> {
    if FirstToggled(rows, entry) < |rows| then Posted(rows, entry) else []
  }

  // ---------- The monitor ----------

  class WinNetworkMonitor {
    const mPipTable: array<Row>
    var posted: seq<Message>  // what clientThread->Post has been given

    constructor (table: array<Row>)
      ensures mPipTable == table && posted == []
    {
      mPipTable := table;
      posted := [];
    }

    method HandleInterfaceUp(luid: Luid)
      modifies this
      ensures posted == old(posted) + (if AnyOtherConnected(mPipTable[..], luid) then [] else [InterfaceUp])
    {
      var allInterfacesWereDown := true;
      var i := 0;
      while i < mPipTable.Length
        invariant 0 <= i <= mPipTable.Length
        invariant allInterfacesWereDown
        invariant forall j: nat | j < i :: !OtherConnected(mPipTable[..], j, luid)
      {
        if mPipTable[i].luid.ifType != SOFTWARE_LOOPBACK && mPipTable[i].luid != luid {
          if mPipTable[i].connected {
            allInterfacesWereDown := false;
            assert OtherConnected(mPipTable[..], i, luid);
            break;
          }
        }
        i := i + 1;
      }
      if allInterfacesWereDown {
        posted := posted + [InterfaceUp];
      }
    }

    method HandleInterfaceDown(luid: Luid)
      modifies this
      ensures posted == old(posted) + (if AnyOtherConnected(mPipTable[..], luid) then [] else [InterfaceDown])
    {
      var allInterfacesAreDown := true;
      var i := 0;
      while i < mPipTable.Length
        invariant 0 <= i <= mPipTable.Length
        invariant allInterfacesAreDown
        invariant forall j: nat | j < i :: !OtherConnected(mPipTable[..], j, luid)
      {
        if mPipTable[i].luid.ifType != SOFTWARE_LOOPBACK && mPipTable[i].luid != luid {
          if mPipTable[i].connected {
            allInterfacesAreDown := false;
            assert OtherConnected(mPipTable[..], i, luid);
            break;
          }
        }
        i := i + 1;
      }
      if allInterfacesAreDown {
        posted := posted + [InterfaceDown];
      }
    }

    /** Entry is what GetIpInterfaceEntry returned for the notified row; None when there was no row or it failed. */
    method HandleInterfaceChange(entry: Option<Row>)
      modifies this, mPipTable
      ensures entry.None? ==> mPipTable[..] == old(mPipTable[..]) && posted == old(posted)
      ensures entry.Some? ==>
                && mPipTable[..] == NextRows(old(mPipTable[..]), entry.value)
                && posted == old(posted) + NextPosts(old(mPipTable[..]), entry.value)
    {
      if entry.None? {
        return;
      }
      var iface := entry.value;
      ghost var rows := mPipTable[..];
      var i := 0;
      while i < mPipTable.Length
        invariant 0 <= i <= mPipTable.Length
        invariant mPipTable[..] == rows && posted == old(posted)
        invariant forall j | 0 <= j < i :: !Toggles(rows[j], iface)
      {
        if mPipTable[i].luid == iface.luid && mPipTable[i].luid.ifType != SOFTWARE_LOOPBACK {
          if mPipTable[i].connected != iface.connected {
            assert FirstToggled(rows, iface) == i;
            mPipTable[i] := iface;
            SameOthers(rows, iface, i);
            if iface.connected {
              HandleInterfaceUp(mPipTable[i].luid);
            } else {
              HandleInterfaceDown(mPipTable[i].luid);
            }
            return;
          }
        }
        i := i + 1;
      }
    }
  }

  /** Overwriting a row of an interface does not change what the other interfaces look like. */
  lemma SameOthers(rows: seq<Row>, entry: Row, k: nat)
    requires k < |rows| && rows[k].luid == entry.luid
    ensures AnyOtherConnected(rows[k := entry], entry.luid) <==> AnyOtherConnected(rows, entry.luid)
  {
    var rows' := rows[k := entry];
    forall i: nat | i < |rows| ensures OtherConnected(rows', i, entry.luid) <==> OtherConnected(rows, i, entry.luid) {
    }
  }

  // ---------- Edges of the connected count ----------

  /** How many non-loopback rows are connected. */
  function CountUp(rows: seq<Row>): nat {
    if rows == [] then 0 else CountUp(rows[..|rows| - 1]) + if rows[|rows| - 1].Counts() then 1 else 0
  }

  lemma {:induction false} CountZero(rows: seq<Row>)
    ensures CountUp(rows) == 0 <==> forall i | 0 <= i < |rows| :: !rows[i].Counts()
    decreases |rows|
  {
    if rows != [] {
      var n := |rows| - 1;
      CountZero(rows[..n]);
      assert rows == rows[..n] + [rows[n]];
      assert forall i | 0 <= i < n :: rows[..n][i] == rows[i];
    }
  }

  lemma {:induction false} CountUpdate(rows: seq<Row>, k: nat, row: Row)
    requires k < |rows|
    ensures CountUp(rows[k := row])
         == CountUp(rows) - (if rows[k].Counts() then 1 else 0) + (if row.Counts() then 1 else 0)
    decreases |rows|
  {
    var n := |rows| - 1;
    if k < n {
      CountUpdate(rows[..n], k, row);
      assert rows[k := row][..n] == rows[..n][k := row];
    } else {
      assert rows[k := row][..n] == rows[..n];
    }
  }

  /** What the posts are meant to report: the count leaves zero, or reaches it. */
  function Edge(before: nat, after: nat): seq<Message> {
    if before == 0 && after > 0 then [InterfaceUp]
    else if before > 0 && after == 0 then [InterfaceDown]
    else []
  }

  /** A second row of the same interface that is connected. */
  predicate TwinConnected(rows: seq<Row>, k: nat)
    requires k < |rows|
  {
    exists j: nat | j < |rows| && j != k :: rows[j].Counts() && rows[j].luid == rows[k].luid
  }

  /** Every connected row other than row k belongs to another interface or is a twin. */
  lemma CountAround(rows: seq<Row>, k: nat, luid: Luid)
    requires k < |rows| && rows[k].luid == luid && luid.ifType != SOFTWARE_LOOPBACK
    ensures CountUp(rows) == (if rows[k].connected then 1 else 0)
       <==> !AnyOtherConnected(rows, luid) && !TwinConnected(rows, k)
    ensures CountUp(rows) >= if rows[k].connected then 1 else 0
  {
    var off := rows[k := rows[k].(connected := false)];
    CountUpdate(rows, k, off[k]);
    CountZero(off);
    if AnyOtherConnected(rows, luid) {
      var i: nat :| i < |rows| && OtherConnected(rows, i, luid);
      assert off[i].Counts();
    }
    if TwinConnected(rows, k) {
      var j: nat :| j < |rows| && j != k && rows[j].Counts() && rows[j].luid == rows[k].luid;
      assert off[j].Counts();
    }
    if i :| 0 <= i < |off| && off[i].Counts() {
      assert i != k && rows[i].Counts();
      assert rows[i].luid != luid ==> OtherConnected(rows, i, luid);
    }
  }

  /** The notified interface has a second, connected row, and no other interface is connected. */
  predicate Spurious(rows: seq<Row>, entry: Row) {
    var k := FirstToggled(rows, entry);
    k < |rows| && TwinConnected(rows, k) && !AnyOtherConnected(rows, entry.luid)
  }

  /** For any table: the post agrees with the edge of the connected count unless the step is spurious. */
  lemma PostsEdgeExactlyWhen(rows: seq<Row>, entry: Row)
    ensures NextPosts(rows, entry) == Edge(CountUp(rows), CountUp(NextRows(rows, entry))) <==> !Spurious(rows, entry)
  {
    var k := FirstToggled(rows, entry);
    if k < |rows| {
      CountUpdate(rows, k, entry);
      CountAround(rows, k, entry.luid);
    }
  }

  /** A spurious step posts although the count stays above zero. */
  lemma SpuriousPosts(rows: seq<Row>, entry: Row)
    requires Spurious(rows, entry)
    ensures NextPosts(rows, entry) == [if entry.connected then InterfaceUp else InterfaceDown]
    ensures CountUp(rows) > 0 && CountUp(NextRows(rows, entry)) > 0
  {
    var k := FirstToggled(rows, entry);
    CountUpdate(rows, k, entry);
    CountAround(rows, k, entry.luid);
  }

  /** An interface of type 24, a software loopback, is no interface here: nothing about it posts or counts. */
  lemma LoopbackIsIgnored(rows: seq<Row>, entry: Row)
    requires entry.luid.ifType == 24
    ensures NextRows(rows, entry) == rows && NextPosts(rows, entry) == []
    ensures CountUp(rows + [entry]) == CountUp(rows)
    ensures forall luid :: AnyOtherConnected(rows + [entry], luid) <==> AnyOtherConnected(rows, luid)
  {
    assert (rows + [entry])[..|rows|] == rows;
    forall luid ensures AnyOtherConnected(rows + [entry], luid) <==> AnyOtherConnected(rows, luid) {
      forall i: nat | i < |rows| ensures OtherConnected(rows + [entry], i, luid) <==> OtherConnected(rows, i, luid) {
      }
    }
  }

  ghost predicate UniqueLuids(rows: seq<Row>) {
    forall i, j | 0 <= i < j < |rows| :: rows[i].luid != rows[j].luid
  }

  /** With one row per interface there are no twins, so UP is posted exactly on 0 to 1 and DOWN exactly on 1 to 0. */
  lemma PostsEveryEdge(rows: seq<Row>, entry: Row)
    requires UniqueLuids(rows)
    ensures UniqueLuids(NextRows(rows, entry))
    ensures NextPosts(rows, entry) == Edge(CountUp(rows), CountUp(NextRows(rows, entry)))
  {
    PostsEdgeExactlyWhen(rows, entry);
  }

  /** The IPv4 and the IPv6 row of one interface come up in turn: each notification posts UP. */
  lemma TwoRowsPostTwice()
    ensures var luid := Luid(6, 1);
            var rows := [Row(luid, 2, false), Row(luid, 23, false)];
            var rows' := NextRows(rows, Row(luid, 2, true));
            NextPosts(rows, Row(luid, 2, true)) == NextPosts(rows', Row(luid, 23, true)) == [InterfaceUp]
  {
    var luid := Luid(6, 1);
    var rows := [Row(luid, 2, false), Row(luid, 23, false)];
    var first, second := Row(luid, 2, true), Row(luid, 23, true);
    assert NextRows(rows, first) == [first, rows[1]];
    assert FirstToggled([rows[1]], second) == 0;
    assert [first, rows[1]][1..] == [rows[1]];
  }

  function RowsAfter(rows: seq<Row>, entries: seq<Row>): seq<Row> {
    if entries == [] then rows
    else NextRows(RowsAfter(rows, entries[..|entries| - 1]), entries[|entries| - 1])
  }

  function PostsAfter(rows: seq<Row>, entries: seq<Row>): seq<Message> {
    if entries == [] then []
    else
      PostsAfter(rows, entries[..|entries| - 1])
      + NextPosts(RowsAfter(rows, entries[..|entries| - 1]), entries[|entries| - 1])
  }

  ghost predicate Alternate<T>(s: seq<T>) {
    forall i | 0 < i < |s| :: s[i] != s[i - 1]
  }

  /** The posts start with a change away from the initial state, alternate, and the last one tells the current state. */
  ghost predicate TellsState(before: nat, after: nat, posts: seq<Message>) {
    && Alternate(posts)
    && (posts != [] ==> posts[0] == if before == 0 then InterfaceUp else InterfaceDown)
    && (after > 0 <==> if posts == [] then before > 0 else posts[|posts| - 1] == InterfaceUp)
  }

  ghost predicate Tells(rows: seq<Row>, entries: seq<Row>) {
    TellsState(CountUp(rows), CountUp(RowsAfter(rows, entries)), PostsAfter(rows, entries))
  }

  /** Posting the edge keeps the posts in step with the count; posting while it stays above zero does not. */
  lemma TellsStep(start: nat, before: nat, after: nat, posts: seq<Message>, more: seq<Message>)
    requires TellsState(start, before, posts)
    requires more == Edge(before, after) || (before > 0 && after > 0 && |more| == 1)
    ensures TellsState(start, after, posts + more) <==> more == Edge(before, after)
  {
    var n, all := |posts|, posts + more;
    assert n > 0 ==> all[0] == posts[0] && all[n - 1] == posts[n - 1];
    if |more| == 1 {
      assert all[n] == more[0] && all[|all| - 1] == more[0];
    } else {
      assert more == [] ==> all == posts;
    }
  }

  lemma AfterExtend(rows: seq<Row>, entries: seq<Row>, entry: Row)
    ensures RowsAfter(rows, entries + [entry]) == NextRows(RowsAfter(rows, entries), entry)
    ensures PostsAfter(rows, entries + [entry]) == PostsAfter(rows, entries) + NextPosts(RowsAfter(rows, entries), entry)
  {
    assert (entries + [entry])[..|entries|] == entries;
  }

  /** The posts stay in step over one more notification exactly when it is not spurious. */
  lemma TellsExtend(rows: seq<Row>, entries: seq<Row>, entry: Row)
    ensures Tells(rows, entries) ==> (Tells(rows, entries + [entry]) <==> !Spurious(RowsAfter(rows, entries), entry))
  {
    var now := RowsAfter(rows, entries);
    AfterExtend(rows, entries, entry);
    PostsEdgeExactlyWhen(now, entry);
    if Spurious(now, entry) {
      SpuriousPosts(now, entry);
    }
    hide CountUp, RowsAfter, PostsAfter, NextRows, NextPosts, Spurious, TellsState;
    if Tells(rows, entries) {
      TellsStep(CountUp(rows), CountUp(now), CountUp(NextRows(now, entry)), PostsAfter(rows, entries), NextPosts(now, entry));
    }
  }

  /** The posts are in step after the first i notifications. */
  ghost predicate TellsAt(rows: seq<Row>, entries: seq<Row>, i: nat)
    requires i <= |entries|
  {
    Tells(rows, entries[..i])
  }

  ghost predicate SpuriousAt(rows: seq<Row>, entries: seq<Row>, i: nat)
    requires i < |entries|
  {
    Spurious(RowsAfter(rows, entries[..i]), entries[i])
  }

  lemma TellsAtStep(rows: seq<Row>, entries: seq<Row>, i: nat)
    requires i < |entries|
    ensures TellsAt(rows, entries, i) ==> (TellsAt(rows, entries, i + 1) <==> !SpuriousAt(rows, entries, i))
  {
    hide Tells, Spurious, RowsAfter;
    assert entries[..i + 1] == entries[..i] + [entries[i]];
    TellsExtend(rows, entries[..i], entries[i]);
  }

  lemma {:induction false} TellsUpTo(rows: seq<Row>, entries: seq<Row>, n: nat)
    requires n <= |entries| && forall i: nat | i < |entries| :: !SpuriousAt(rows, entries, i)
    ensures TellsAt(rows, entries, n)
    decreases n
  {
    if n > 0 {
      hide TellsAt, SpuriousAt;
      TellsUpTo(rows, entries, n - 1);
      TellsAtStep(rows, entries, n - 1);
    }
  }

  /** For every table and run: the posts are in step throughout exactly when no notification is spurious. */
  lemma TellsExactlyWhen(rows: seq<Row>, entries: seq<Row>)
    ensures (forall i: nat | i <= |entries| :: TellsAt(rows, entries, i))
       <==> (forall i: nat | i < |entries| :: !SpuriousAt(rows, entries, i))
  {
    hide TellsAt, SpuriousAt;
    if forall i: nat | i < |entries| :: !SpuriousAt(rows, entries, i) {
      forall i: nat | i <= |entries| ensures TellsAt(rows, entries, i) {
        TellsUpTo(rows, entries, i);
      }
    } else {
      var i: nat :| i < |entries| && SpuriousAt(rows, entries, i);
      TellsAtStep(rows, entries, i);
    }
  }

  /** With one row per interface no notification is spurious: in every run the posts are in step throughout. */
  lemma {:induction false} PostsAlternate(rows: seq<Row>, entries: seq<Row>)
    requires UniqueLuids(rows)
    ensures UniqueLuids(RowsAfter(rows, entries)) && Tells(rows, entries)
    decreases |entries|
  {
    if entries != [] {
      var n := |entries| - 1;
      PostsAlternate(rows, entries[..n]);
      assert entries == entries[..n] + [entries[n]];
      var now := RowsAfter(rows, entries[..n]);
      PostsEveryEdge(now, entries[n]);
      PostsEdgeExactlyWhen(now, entries[n]);
      AfterExtend(rows, entries[..n], entries[n]);
      hide Spurious, Tells, UniqueLuids, RowsAfter, NextRows;
      TellsExtend(rows, entries[..n], entries[n]);
    }
  }

  // ---------- The handlers on the client thread ----------

  datatype AppEvent = Removed | Added

  /** The part of skinnySipManager that turns the messages into application events. */
  class NetworkEvents {
    var mNetworkDown: bool
    var mReIcePending: bool
    var events: seq<AppEvent>
    var reIces: nat
    ghost const StartedDown: bool

    ghost predicate Valid()
      reads this
    {
      && Alternate(events)
      && (events == [] ==> mNetworkDown == StartedDown)
      && (events != [] ==>
            && (events[0] == Removed <==> !StartedDown)
            && (events[|events| - 1] == Removed <==> mNetworkDown))
    }

    constructor (down: bool)
      ensures Valid() && StartedDown == down && events == [] && mNetworkDown == down && !mReIcePending
    {
      mNetworkDown, mReIcePending, events, reIces := down, false, [], 0;
      StartedDown := down;
    }

    /** The Windows build: no further check is made. */
    method HandleNetworkUpEvent()
      requires Valid()
      modifies this
      ensures Valid() && !mNetworkDown && !mReIcePending
      ensures events == old(events) + if old(mNetworkDown) then [Added] else []
      ensures reIces == old(reIces) + if old(mReIcePending) then 1 else 0
    {
      if mNetworkDown {
        mNetworkDown := false;
        events := events + [Added];
      }
      if mReIcePending && !mNetworkDown {
        reIces := reIces + 1;
        mReIcePending := false;
      }
    }

    /** Whether each address family still has an interface is what pj_enum_ip_interface answers. */
    method HandleNetworkDownEvent(hasIpv4: bool, hasIpv6: bool, nat64: bool)
      requires Valid()
      modifies this
      ensures Valid()
      ensures mNetworkDown <==> old(mNetworkDown) || (!hasIpv4 && !(hasIpv6 && nat64))
      ensures events == old(events) + if mNetworkDown && !old(mNetworkDown) then [Removed] else []
      ensures mReIcePending == old(mReIcePending) && reIces == old(reIces)
    {
      if !mNetworkDown && !hasIpv4 {
        mNetworkDown := true;
        if hasIpv6 && nat64 {
          mNetworkDown := false;
        }
        if mNetworkDown {
          events := events + [Removed];
        }
      }
    }
  }
}
