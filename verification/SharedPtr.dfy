/** smartpointer.h: the reference-counted SharedPtr. */
module SharedPointers {

  /** What a SharedPtr points to. */
  class Pointee {
  }

  class AtomicLong {
    var mVal: int

    constructor (val: int)
      ensures mVal == val
    {
      mVal := val;
    }

    method Increment() returns (r: int)
      modifies this
      ensures mVal == old(mVal) + 1 == r
    {
      mVal := mVal + 1;
      r := mVal;
    }

    method Decrement() returns (r: int)
      modifies this
      ensures mVal == old(mVal) - 1 == r
    {
      mVal := mVal - 1;
      r := mVal;
    }
  }

  // ---------- The heap as a value ----------

  /** The two pointers of a handle: both null, or a control block and the object it guards. */
  datatype Slot = Null | On(block: AtomicLong, obj: Pointee)

  /** Live handles, control blocks with their counts and objects, and the history of raw pointers. */
  datatype State = State(
    handles: map<SharedPtr, Slot>,
    counts: map<AtomicLong, int>,
    guarded: map<AtomicLong, Pointee>,
    handed: set<Pointee>,   // raw pointers given to a SharedPtr so far
    freed: seq<Pointee>)    // deleted objects, in order

  ghost function Sharers(handles: map<SharedPtr, Slot>, b: AtomicLong): set<SharedPtr> {
    set h | h in handles && handles[h].On? && handles[h].block == b
  }

  ghost predicate NoDuplicates(s: seq<Pointee>) {
    forall i, j | 0 <= i < j < |s| :: s[i] != s[j]
  }

  /** Every handle that points somewhere points to a block and the object it guards. */
  ghost predicate Linked(handles: map<SharedPtr, Slot>, guarded: map<AtomicLong, Pointee>) {
    forall h | h in handles && handles[h].On? ::
      handles[h].block in guarded && guarded[handles[h].block] == handles[h].obj
  }

  /** Every count is the number of live handles on the block, and no block outlives its last handle. */
  ghost predicate CountsExact(handles: map<SharedPtr, Slot>, counts: map<AtomicLong, int>) {
    forall b | b in counts :: counts[b] == |Sharers(handles, b)| && counts[b] > 0
  }

  /** No two blocks guard one object; an object handed over is either guarded or has been freed, once. */
  ghost predicate FreedOnce(guarded: map<AtomicLong, Pointee>, handed: set<Pointee>, freed: seq<Pointee>) {
    && (forall b: AtomicLong, c: AtomicLong | b in guarded && c in guarded && b != c :: guarded[b] != guarded[c])
    && (forall b | b in guarded :: guarded[b] in handed && guarded[b] !in freed)
    && NoDuplicates(freed)
    && (forall p | p in handed :: p in freed || exists b: AtomicLong | b in guarded :: guarded[b] == p)
    && (forall p | p in freed :: p in handed)
  }

  ghost predicate Safe(st: State) {
    && st.counts.Keys == st.guarded.Keys
    && Linked(st.handles, st.guarded) && CountsExact(st.handles, st.counts)
    && FreedOnce(st.guarded, st.handed, st.freed)
  }

  const EMPTY: State := State(map[], map[], map[], {}, [])

  /** SharedPtr(U*) of a raw pointer that is not null. */
  ghost function Guard(st: State, h: SharedPtr, b: AtomicLong, p: Pointee): State {
    State(st.handles[h := On(b, p)], st.counts[b := 1], st.guarded[b := p], st.handed + {p}, st.freed)
  }

  /** SharedPtr() and SharedPtr(const SharedPtr&): one more handle with the given slot. */
  ghost function Share(st: State, h: SharedPtr, slot: Slot): State
    requires slot.On? ==> slot.block in st.counts
  {
    st.(handles := st.handles[h := slot],
        counts := if slot.On? then st.counts[slot.block := st.counts[slot.block] + 1] else st.counts)
  }

  ghost function Exchange(st: State, h: SharedPtr, k: SharedPtr): State
    requires h in st.handles && k in st.handles
  {
    st.(handles := st.handles[h := st.handles[k]][k := st.handles[h]])
  }

  /** ~SharedPtr: the last handle on a block frees the object and the block. */
  ghost function Drop(st: State, h: SharedPtr): State
    requires h in st.handles && (st.handles[h].On? ==> st.handles[h].block in st.counts)
  {
    var slot := st.handles[h];
    if slot.Null? then st.(handles := st.handles - {h})
    else if st.counts[slot.block] == 1 then
      State(st.handles - {h}, st.counts - {slot.block}, st.guarded - {slot.block}, st.handed, st.freed + [slot.obj])
    else st.(handles := st.handles - {h}, counts := st.counts[slot.block := st.counts[slot.block] - 1])
  }

  function OneIf(c: bool): nat {
    if c then 1 else 0
  }

  lemma CountAdded(handles: map<SharedPtr, Slot>, h: SharedPtr, slot: Slot, b: AtomicLong)
    requires h !in handles
    ensures |Sharers(handles[h := slot], b)| == |Sharers(handles, b)| + OneIf(slot.On? && slot.block == b)
  {
    var s := Sharers(handles, b);
    assert h !in s;
    assert Sharers(handles[h := slot], b) == if slot.On? && slot.block == b then s + {h} else s;
  }

  lemma CountRemoved(handles: map<SharedPtr, Slot>, h: SharedPtr, b: AtomicLong)
    requires h in handles
    ensures |Sharers(handles - {h}, b)| == |Sharers(handles, b)| - OneIf(handles[h].On? && handles[h].block == b)
  {
    var s := Sharers(handles - {h}, b);
    assert h !in s;
    assert Sharers(handles, b) == if handles[h].On? && handles[h].block == b then s + {h} else s;
  }

  lemma GuardSafe(st: State, h: SharedPtr, b: AtomicLong, p: Pointee)
    requires Safe(st) && h !in st.handles && b !in st.guarded && p !in st.handed
    ensures Safe(Guard(st, h, b, p))
  {
    GuardFreedOnce(st.guarded, st.handed, st.freed, b, p);
    hide FreedOnce;
    var st' := Guard(st, h, b, p);
    assert CountsExact(st'.handles, st'.counts) by {
      forall c ensures |Sharers(st'.handles, c)| == |Sharers(st.handles, c)| + OneIf(c == b) {
        CountAdded(st.handles, h, On(b, p), c);
      }
      assert Sharers(st.handles, b) == {};
      hide Sharers, Safe;
    }
    assert Linked(st'.handles, st'.guarded) by {
      hide CountsExact;
    }
  }

  lemma GuardFreedOnce(guarded: map<AtomicLong, Pointee>, handed: set<Pointee>, freed: seq<Pointee>,
                       b: AtomicLong, p: Pointee)
    requires FreedOnce(guarded, handed, freed) && p !in handed && b !in guarded
    ensures FreedOnce(guarded[b := p], handed + {p}, freed)
  {
    var guarded' := guarded[b := p];
    forall q | q in handed + {p} ensures q in freed || exists c: AtomicLong | c in guarded' :: guarded'[c] == q {
      if q == p {
        assert guarded'[b] == q;
      } else if q !in freed {
        var c: AtomicLong :| c in guarded && guarded[c] == q;
        assert guarded'[c] == q;
      }
    }
  }

  lemma ShareSafe(st: State, h: SharedPtr, slot: Slot)
    requires Safe(st) && h !in st.handles
    requires slot.On? ==> slot.block in st.guarded && st.guarded[slot.block] == slot.obj
    ensures Safe(Share(st, h, slot))
  {
    hide FreedOnce;
    var st' := Share(st, h, slot);
    forall b | b in st.counts
      ensures |Sharers(st'.handles, b)| == |Sharers(st.handles, b)| + OneIf(slot.On? && slot.block == b)
    {
      CountAdded(st.handles, h, slot, b);
    }
    hide Sharers;
  }

  lemma ExchangeSafe(st: State, h: SharedPtr, k: SharedPtr)
    requires Safe(st) && h in st.handles && k in st.handles
    ensures Safe(Exchange(st, h, k))
  {
    hide FreedOnce;
    var st' := Exchange(st, h, k);
    forall b | b in st.counts ensures |Sharers(st'.handles, b)| == |Sharers(st.handles, b)| {
      ExchangeMembers(Sharers(st'.handles, b), Sharers(st.handles, b), h, k);
    }
    hide Sharers;
  }

  /** Exchanging the membership of two elements keeps the number of members. */
  lemma ExchangeMembers(s: set<SharedPtr>, t: set<SharedPtr>, a: SharedPtr, b: SharedPtr)
    requires (a in s <==> b in t) && (b in s <==> a in t)
    requires s - {a, b} == t - {a, b}
    ensures |s| == |t|
  {
    Without(s, a, b);
    Without(t, b, a);
  }

  lemma Without(s: set<SharedPtr>, a: SharedPtr, b: SharedPtr)
    ensures |s| == |s - {a, b}| + OneIf(a in s) + OneIf(b in s && a != b)
  {
    var r := s - {a};
    WithoutOne(s, a);
    WithoutOne(r, b);
    assert r - {b} == s - {a, b};
  }

  lemma WithoutOne(s: set<SharedPtr>, a: SharedPtr)
    ensures |s| == |s - {a}| + OneIf(a in s)
  {
    assert s == if a in s then (s - {a}) + {a} else s - {a};
  }

  lemma DropSafe(st: State, h: SharedPtr)
    requires Safe(st) && h in st.handles
    ensures Safe(Drop(st, h))
  {
    var st', slot := Drop(st, h), st.handles[h];
    var last := slot.On? && st.counts[slot.block] == 1;
    if last {
      DropFreedOnce(st.guarded, st.handed, st.freed, slot.block);
      NoOther(st.handles, h, slot.block);
    }
    hide FreedOnce;
    assert Linked(st'.handles, st'.guarded) by {
      hide CountsExact, Sharers;
    }
    hide Linked;
    assert CountsExact(st'.handles, st'.counts) by {
      forall b | b in st.counts
        ensures |Sharers(st'.handles, b)| == |Sharers(st.handles, b)| - OneIf(slot.On? && slot.block == b)
      {
        CountRemoved(st.handles, h, b);
      }
      hide Sharers;
    }
    hide CountsExact;
  }

  /** Apart from h and its block, Drop keeps what it leaves. */
  lemma DropKeeps(st: State, h: SharedPtr)
    requires Safe(st) && h in st.handles
    ensures var st', slot := Drop(st, h), st.handles[h];
            && (forall g | g in st'.handles :: g in st.handles && g != h && st'.handles[g] == st.handles[g])
            && (forall b | b in st'.counts :: b in st.counts
                  && st'.counts[b] == st.counts[b] - OneIf(slot.On? && slot.block == b))
  {
  }

  /** The last handle on a block is the only one. */
  lemma NoOther(handles: map<SharedPtr, Slot>, h: SharedPtr, b: AtomicLong)
    requires h in handles && handles[h].On? && handles[h].block == b && |Sharers(handles, b)| == 1
    ensures forall g | g in handles && g != h && handles[g].On? :: handles[g].block != b
  {
    assert h in Sharers(handles, b);
    assert |Sharers(handles, b) - {h}| == 0;
    assert forall g | g in handles && g != h && handles[g].On? && handles[g].block == b :: g in Sharers(handles, b) - {h};
  }

  lemma DropFreedOnce(guarded: map<AtomicLong, Pointee>, handed: set<Pointee>, freed: seq<Pointee>, b: AtomicLong)
    requires FreedOnce(guarded, handed, freed) && b in guarded
    ensures FreedOnce(guarded - {b}, handed, freed + [guarded[b]])
  {
    var guarded', freed' := guarded - {b}, freed + [guarded[b]];
    assert forall q :: q in freed' <==> q in freed || q == guarded[b];
    forall q | q in handed ensures q in freed' || exists c: AtomicLong | c in guarded' :: guarded'[c] == q {
      if q !in freed' {
        var c: AtomicLong :| c in guarded && guarded[c] == q;
        assert guarded'[c] == q;
      }
    }
  }

  /** An object is alive exactly while some live handle points to it. */
  lemma AliveExactlyWhileHeld(st: State, p: Pointee)
    requires Safe(st) && p in st.handed
    ensures p !in st.freed <==> exists h | h in st.handles :: st.handles[h].On? && st.handles[h].obj == p
  {
    if p !in st.freed {
      var b: AtomicLong :| b in st.guarded && st.guarded[b] == p;
      assert |Sharers(st.handles, b)| > 0;
      var h :| h in Sharers(st.handles, b);
      assert h in st.handles && st.handles[h].obj == p;
    }
  }

  /** Once the last handle is gone nothing is leaked: every object handed over was freed exactly once. */
  lemma NothingLeaks(st: State)
    requires Safe(st) && st.handles == map[]
    ensures st.guarded == map[]
    ensures NoDuplicates(st.freed) && forall p :: p in st.freed <==> p in st.handed
  {
    assert forall b | b in st.counts :: Sharers(st.handles, b) == {};
    assert st.guarded.Keys == {};
  }

  /** No other live handle shares what h points to. */
  ghost predicate SoleHolder(st: State, h: SharedPtr)
    requires h in st.handles
  {
    && st.handles[h].On?
    && (forall g | g in st.handles && g != h && st.handles[g].On? ::
          st.handles[g].block != st.handles[h].block)
  }

  lemma CountOneExactlyWhenSole(st: State, h: SharedPtr)
    requires Safe(st) && h in st.handles && st.handles[h].On?
    ensures st.counts[st.handles[h].block] == 1 <==> SoleHolder(st, h)
  {
    var s := Sharers(st.handles, st.handles[h].block);
    assert h in s;
    WithoutOne(s, h);
    if |s| == 1 {
      assert s - {h} == {};
      assert forall g | g in st.handles && g != h :: g !in s;
    } else {
      var g :| g in s - {h};
    }
  }

  /** The source's idiom of building a temporary, swapping it in and letting it go out of scope. */
  lemma Replaced(st: State, temp: SharedPtr, h: SharedPtr, slot: Slot)
    requires Safe(st) && h in st.handles && temp !in st.handles
    requires slot.On? ==> slot.block in st.guarded && st.guarded[slot.block] == slot.obj && slot != st.handles[h]
    ensures var r := Drop(Exchange(Share(st, temp, slot), temp, h), temp);
            && r.handles == st.handles[h := slot] && r.handed == st.handed
            && r.freed == st.freed + if SoleHolder(st, h) then [st.handles[h].obj] else []
  {
    if st.handles[h].On? {
      CountOneExactlyWhenSole(st, h);
    }
  }

  /** The slot that a raw pointer and the block made for it give. */
  function SlotFor(b: AtomicLong?, p: Pointee?): Slot {
    if b == null || p == null then Null else On(b, p)
  }

  /** SharedPtr(U*) */
  ghost function FromPointer(st: State, h: SharedPtr, b: AtomicLong?, p: Pointee?): State {
    if b == null || p == null then Share(st, h, Null) else Guard(st, h, b, p)
  }

  lemma ReplacedByPointer(st: State, temp: SharedPtr, h: SharedPtr, b: AtomicLong?, p: Pointee?)
    requires Safe(st) && h in st.handles && temp !in st.handles
    requires (b == null <==> p == null) && (b != null ==> b !in st.guarded && p !in st.handed)
    ensures var mid := Exchange(FromPointer(st, temp, b, p), temp, h);
            && (mid.handles[temp].On? ==> mid.handles[temp].block in mid.counts)
            && var r := Drop(mid, temp);
            && r.handles == st.handles[h := SlotFor(b, p)]
            && r.handed == st.handed + (if p == null then {} else {p})
            && r.freed == st.freed + if SoleHolder(st, h) then [st.handles[h].obj] else []
  {
    if st.handles[h].On? {
      CountOneExactlyWhenSole(st, h);
    }
    if b == null {
      Replaced(st, temp, h, Null);
    }
  }

  // ---------- Every run ----------

  /** One construction, copy, exchange or destruction; assignment and reset are made of these. */
  ghost predicate Step(st: State, st': State, h: SharedPtr, k: SharedPtr, b: AtomicLong, p: Pointee) {
    || (h !in st.handles && b !in st.guarded && p !in st.handed && st' == Guard(st, h, b, p))
    || (h !in st.handles && st' == Share(st, h, Null))
    || (&& h !in st.handles && k in st.handles
        && (st.handles[k].On? ==> st.handles[k].block in st.counts) && st' == Share(st, h, st.handles[k]))
    || (h in st.handles && k in st.handles && st' == Exchange(st, h, k))
    || (&& h in st.handles
        && (st.handles[h].On? ==> st.handles[h].block in st.counts) && st' == Drop(st, h))
  }

  datatype Event = Event(h: SharedPtr, k: SharedPtr, b: AtomicLong, p: Pointee)

  ghost predicate IsRun(states: seq<State>, events: seq<Event>) {
    && |states| == |events| + 1 && states[0] == EMPTY
    && forall i | 0 <= i < |events| ::
         Step(states[i], states[i + 1], events[i].h, events[i].k, events[i].b, events[i].p)
  }

  lemma StepSafe(st: State, st': State, e: Event)
    requires Safe(st) && Step(st, st', e.h, e.k, e.b, e.p)
    ensures Safe(st') && st.freed <= st'.freed && st.handed <= st'.handed
  {
    if e.h !in st.handles && e.b !in st.guarded && e.p !in st.handed && st' == Guard(st, e.h, e.b, e.p) {
      GuardSafe(st, e.h, e.b, e.p);
    } else if e.h !in st.handles && st' == Share(st, e.h, Null) {
      ShareSafe(st, e.h, Null);
    } else if e.h !in st.handles {
      ShareSafe(st, e.h, st.handles[e.k]);
    } else if e.k in st.handles && st' == Exchange(st, e.h, e.k) {
      ExchangeSafe(st, e.h, e.k);
    } else {
      DropSafe(st, e.h);
    }
  }

  /** Every state of every run is safe, and what was freed stays freed. */
  lemma {:induction false} EveryRunSafe(states: seq<State>, events: seq<Event>)
    requires IsRun(states, events)
    ensures forall i | 0 <= i < |states| :: Safe(states[i]) && states[i].freed <= states[|states| - 1].freed
    decreases |events|
  {
    if events == [] {
      assert Safe(EMPTY);
    } else {
      var n := |events|;
      assert IsRun(states[..n], events[..n - 1]);
      EveryRunSafe(states[..n], events[..n - 1]);
      assert Safe(states[..n][n - 1]);
      StepSafe(states[n - 1], states[n], events[n - 1]);
      forall i | 0 <= i < n ensures Safe(states[i]) && states[i].freed <= states[n].freed {
        assert states[..n][i] == states[i];
        assert states[i].freed <= states[n - 1].freed <= states[n].freed;
      }
    }
  }

  // ---------- The class ----------

  /** The handles and blocks of the program, with the value their fields make up. It exists only in the proof. */
  class Memory {
    ghost var st: State

    constructor ()
      ensures Valid() && st == EMPTY
    {
      st := EMPTY;
    }

    ghost predicate HandlesMirrored()
      reads this, st.handles.Keys
    {
      forall h | h in st.handles :: h.SlotIs(st.handles[h])
    }

    ghost predicate CountsMirrored()
      reads this, st.counts.Keys
    {
      forall b | b in st.counts :: b.mVal == st.counts[b]
    }

    ghost predicate Valid()
      reads this, st.handles.Keys, st.counts.Keys
    {
      Safe(st) && HandlesMirrored() && CountsMirrored()
    }

    /** A new handle that points nowhere. */
    ghost method AddNull(h: SharedPtr)
      requires Valid() && h !in st.handles && h.SlotIs(Null)
      modifies this
      ensures Valid() && st == Share(old(st), h, Null)
    {
      ShareSafe(st, h, Null);
      hide Safe;
      st := Share(st, h, Null);
    }

    /** A new handle with a new block for a raw pointer. */
    ghost method AddGuard(h: SharedPtr, b: AtomicLong, p: Pointee)
      requires Valid() && h !in st.handles && b !in st.guarded && p !in st.handed
      requires h.SlotIs(On(b, p)) && b.mVal == 1
      modifies this
      ensures Valid() && st == Guard(old(st), h, b, p)
    {
      GuardSafe(st, h, b, p);
      hide Safe;
      st := Guard(st, h, b, p);
    }

    /** A new handle on what slot says; the field of its block already counts it. */
    ghost method AddShared(h: SharedPtr, slot: Slot)
      requires Safe(st) && HandlesMirrored() && h !in st.handles && h.SlotIs(slot)
      requires slot.On? ==> slot.block in st.guarded && st.guarded[slot.block] == slot.obj
      requires forall b | b in st.counts :: b.mVal == st.counts[b] + OneIf(slot.On? && slot.block == b)
      modifies this
      ensures Valid() && st == Share(old(st), h, slot)
    {
      ShareSafe(st, h, slot);
      hide Safe;
      st := Share(st, h, slot);
    }

    /** Two handles whose fields have been exchanged. */
    ghost method Exchanged(h: SharedPtr, k: SharedPtr)
      requires Safe(st) && CountsMirrored() && h in st.handles && k in st.handles
      requires h.SlotIs(st.handles[k]) && k.SlotIs(st.handles[h])
      requires forall g | g in st.handles && g != h && g != k :: g.SlotIs(st.handles[g])
      modifies this
      ensures Valid() && st == Exchange(old(st), h, k)
    {
      ExchangeSafe(st, h, k);
      hide Safe;
      st := Exchange(st, h, k);
    }

    /** A handle goes out of scope. */
    ghost method Leave(h: SharedPtr)
      modifies this
      ensures st == old(st).(handles := old(st).handles - {h})
    {
      st := st.(handles := st.handles - {h});
    }

    /** The count of a block becomes what its field says. */
    ghost method Recount(b: AtomicLong)
      modifies this
      ensures st == old(st).(counts := old(st).counts[b := b.mVal])
    {
      st := st.(counts := st.counts[b := b.mVal]);
    }

    /** delete of an object. */
    ghost method Delete(p: Pointee)
      modifies this
      ensures st == old(st).(freed := old(st).freed + [p])
    {
      st := st.(freed := st.freed + [p]);
    }

    /** delete of a control block. */
    ghost method DeleteBlock(b: AtomicLong)
      modifies this
      ensures st == old(st).(counts := old(st).counts - {b}, guarded := old(st).guarded - {b})
    {
      st := st.(counts := st.counts - {b}, guarded := st.guarded - {b});
    }
  }

  class SharedPtr {
    var mPtr: Pointee?
    var mRef: AtomicLong?

    ghost predicate SlotIs(slot: Slot)
      reads this
    {
      match slot
      case Null => mPtr == null && mRef == null
      case On(b, p) => mPtr == p && mRef == b
    }

    /** SharedPtr() */
    constructor Empty(ghost m: Memory)
      requires m.Valid()
      modifies m
      ensures m.Valid() && this !in old(m.st.handles) && m.st == Share(old(m.st), this, Null)
    {
      mPtr, mRef := null, null;
      new;
      m.AddNull(this);
    }

    /** SharedPtr(U*): a raw pointer may be handed over only once. */
    constructor FromRaw(ptr: Pointee?, ghost m: Memory)
      requires m.Valid() && (ptr != null ==> ptr !in m.st.handed)
      modifies m
      ensures m.Valid() && this !in old(m.st.handles) && mPtr == ptr
      ensures (mRef == null <==> ptr == null) && (mRef != null ==> fresh(mRef))
      ensures m.st == FromPointer(old(m.st), this, mRef, ptr)
    {
      mPtr := ptr;
      if ptr != null {
        mRef := new AtomicLong(1);
      } else {
        mRef := null;
      }
      new;
      if ptr != null {
        m.AddGuard(this, mRef, ptr);
      } else {
        m.AddNull(this);
      }
    }

    /** SharedPtr(const SharedPtr&) */
    constructor Copy(rhs: SharedPtr, ghost m: Memory)
      requires m.Valid() && rhs in m.st.handles
      modifies m, m.st.counts.Keys
      ensures m.Valid() && this !in old(m.st.handles)
      ensures rhs in old(m.st.handles) && Safe(old(m.st)) && m.st == Share(old(m.st), this, old(m.st.handles[rhs]))
    {
      mPtr, mRef := rhs.mPtr, rhs.mRef;
      new;
      ghost var slot := m.st.handles[rhs];
      assert slot.On? ==> slot.block in m.st.counts && m.st.guarded[slot.block] == slot.obj;
      hide Safe, Linked, CountsExact, FreedOnce, Sharers;
      if mRef != null {
        var _ := mRef.Increment();
      }
      m.AddShared(this, slot);
    }

    method Swap(rhs: SharedPtr, ghost m: Memory)
      requires m.Valid() && this in m.st.handles && rhs in m.st.handles
      modifies this, rhs, m
      ensures m.Valid() && m.st == Exchange(old(m.st), this, rhs)
      ensures mPtr == old(rhs.mPtr) && mRef == old(rhs.mRef)
    {
      hide Safe, CountsExact, FreedOnce, Linked, Sharers;
      mPtr, rhs.mPtr := rhs.mPtr, mPtr;
      mRef, rhs.mRef := rhs.mRef, mRef;
      m.Exchanged(this, rhs);
    }

    /** Deletes what the handle points to; only here does anything become free. */
    method Destroy(ghost m: Memory)
      requires mPtr != null && mRef != null
      modifies this, m
      ensures mPtr == null && mRef == null
      ensures var st, b := old(m.st), old(mRef);
              m.st == st.(counts := st.counts - {b}, guarded := st.guarded - {b}, freed := st.freed + [old(mPtr)])
    {
      m.Delete(mPtr);
      mPtr := null;
      m.DeleteBlock(mRef);
      mRef := null;
    }

    /** decrement() at the end of a handle's life. */
    method Decrement(ghost m: Memory)
      requires mRef != null ==> mPtr != null && mRef in m.st.counts && m.st.counts[mRef] == mRef.mVal
      requires this in m.st.handles && SlotIs(m.st.handles[this])
      modifies this, m, mRef
      ensures m.st == Drop(old(m.st), this)
      ensures old(mRef) != null ==> old(mRef).mVal == old(mRef.mVal) - 1
    {
      m.Leave(this);
      if mRef != null {
        var newCount := mRef.Decrement();
        m.Recount(mRef);
        if newCount == 0 {
          Destroy(m);
        }
      }
    }

    /** ~SharedPtr */
    method Destruct(ghost m: Memory)
      requires m.Valid() && this in m.st.handles
      modifies this, m, m.st.counts.Keys
      ensures Safe(old(m.st)) && m.Valid() && m.st == Drop(old(m.st), this)
    {
      DropSafe(m.st, this);
      DropKeeps(m.st, this);
      assert mRef != null ==> mRef in m.st.counts;
      hide Safe, Drop, Linked, CountsExact, FreedOnce, Sharers;
      Decrement(m);
      assert m.HandlesMirrored();
      hide Memory.HandlesMirrored;
    }

    /** temp.swap(*this), after which temp goes out of scope. */
    method TakeFrom(temp: SharedPtr, ghost m: Memory)
      requires m.Valid() && this in m.st.handles && temp in m.st.handles && temp != this
      modifies this, temp, m, m.st.counts.Keys
      ensures Safe(old(m.st)) && Safe(Exchange(old(m.st), temp, this))
      ensures m.Valid() && m.st == Drop(Exchange(old(m.st), temp, this), temp)
    {
      hide CountsExact, FreedOnce, Linked, Drop;
      temp.Swap(this, m);
      temp.Destruct(m);
    }

    /** operator=. The source asserts that handles on one object share its block; that assertion always holds. */
    method Assign(rhs: SharedPtr, ghost m: Memory)
      requires m.Valid() && this in m.st.handles && rhs in m.st.handles
      modifies this, m, m.st.counts.Keys
      ensures m.Valid() && m.st.handles == old(m.st.handles[this := m.st.handles[rhs]])
      ensures m.st.handed == old(m.st.handed)
      ensures m.st.freed == old(m.st.freed) + if old(mPtr != rhs.mPtr && SoleHolder(m.st, this)) then [old(mPtr)] else []
    {
      ghost var st := m.st;
      if mPtr == rhs.mPtr {
        assert mRef == rhs.mRef;
        assert st.handles[this] == st.handles[rhs];
        return;
      }
      var temp := new SharedPtr.Copy(rhs, m);
      TakeFrom(temp, m);
      Replaced(st, temp, this, st.handles[rhs]);
    }

    /** reset() */
    method ResetEmpty(ghost m: Memory)
      requires m.Valid() && this in m.st.handles
      modifies this, m, m.st.counts.Keys
      ensures m.Valid() && m.st.handles == old(m.st.handles)[this := Null] && m.st.handed == old(m.st.handed)
      ensures m.st.freed == old(m.st.freed) + if old(SoleHolder(m.st, this)) then [old(mPtr)] else []
    {
      ghost var st := m.st;
      var temp := new SharedPtr.Empty(m);
      TakeFrom(temp, m);
      Replaced(st, temp, this, Null);
    }

    /** reset(T*) */
    method Reset(ptr: Pointee?, ghost m: Memory)
      requires m.Valid() && this in m.st.handles && (ptr != null ==> ptr !in m.st.handed)
      modifies this, m, m.st.counts.Keys
      ensures m.Valid() && mPtr == ptr
      ensures m.st.handles == old(m.st.handles)[this := SlotFor(mRef, ptr)]
      ensures m.st.handed == old(m.st.handed) + if ptr == null then {} else {ptr}
      ensures m.st.freed == old(m.st.freed) + if old(SoleHolder(m.st, this)) then [old(mPtr)] else []
    {
      ghost var st := m.st;
      var temp := new SharedPtr.FromRaw(ptr, m);
      ghost var b := temp.mRef;
      ReplacedByPointer(st, temp, this, b, ptr);
      hide CountsExact, FreedOnce, Linked, Drop;
      assert this in m.st.handles && temp in m.st.handles;
      hide FromPointer, Exchange;
      TakeFrom(temp, m);
      assert SlotIs(m.st.handles[this]);
    }

    method UseCount(ghost m: Memory) returns (n: int)
      requires m.Valid() && this in m.st.handles
      ensures n == if mRef == null then 0 else |Sharers(m.st.handles, mRef)|
    {
      n := if mRef != null then mRef.mVal else 0;
    }
  }
}
