/** bjn_cpu_monitor.cc: finding the CPU profile of a machine. Characters stand for the bytes of std::string. */
module CpuProfiles {

  // ---------- String order ----------

  /** operator< of std::string. */
  predicate Less(a: string, b: string) {
    b != [] && (a == [] || a[0] < b[0] || (a[0] == b[0] && Less(a[1..], b[1..])))
  }

  lemma {:induction false} LessIrreflexive(a: string)
    ensures !Less(a, a)
    decreases |a|
  {
    if a != [] {
      LessIrreflexive(a[1..]);
    }
  }

  lemma {:induction false} LessTotal(a: string, b: string)
    ensures a != b ==> (Less(a, b) <==> !Less(b, a))
    ensures a == b ==> !Less(a, b)
    decreases |a|
  {
    LessIrreflexive(a);
    if a != [] && b != [] {
      LessTotal(a[1..], b[1..]);
      assert a == [a[0]] + a[1..] && b == [b[0]] + b[1..];
    }
  }

  lemma {:induction false} LessTransitive(a: string, b: string, c: string)
    requires Less(a, b) && Less(b, c)
    ensures Less(a, c)
    decreases |a|
  {
    if a != [] && a[0] == b[0] == c[0] {
      LessTransitive(a[1..], b[1..], c[1..]);
    }
  }

  /** A string is below every one that continues it, or any prefix of it, with a greater character. */
  lemma {:induction false} LessByContinuation(a: string, stem: string, c: char)
    requires stem <= a
    requires |stem| < |a| ==> a[|stem|] < c
    ensures Less(a, stem + [c])
    decreases |stem|
  {
    var b := stem + [c];
    if stem != [] {
      assert b[1..] == stem[1..] + [c];
      LessByContinuation(a[1..], stem[1..], c);
    }
  }

  /** Only a smaller character takes a continuation of stem below stem + [c]. */
  lemma {:induction false} BelowContinuation(a: string, stem: string, c: char)
    requires stem <= a && |stem| < |a| && Less(a, stem + [c])
    ensures a[|stem|] < c
    decreases |stem|
  {
    var b := stem + [c];
    if stem != [] {
      assert b[1..] == stem[1..] + [c];
      BelowContinuation(a[1..], stem[1..], c);
    }
  }

  // ---------- Wildcard keys ----------

  const WILDCARD: char := '~'

  predicate Wild(key: string) {
    key != [] && key[|key| - 1] == WILDCARD
  }

  function Stem(key: string): string
    requires Wild(key)
  {
    key[..|key| - 1]
  }

  /** The key is a wildcard whose stem is a prefix of the machine name. */
  predicate Matches(key: string, mm: string) {
    Wild(key) && Stem(key) <= mm
  }

  ghost predicate BelowWildcard(mm: string) {
    forall i | 0 <= i < |mm| :: mm[i] < WILDCARD
  }

  /** Why '~' works: below it matching keys sort above the name, and longer stems below shorter ones. */
  lemma MatchesAbove(key: string, mm: string)
    requires Matches(key, mm) && BelowWildcard(mm)
    ensures Less(mm, key)
  {
    LessByContinuation(mm, Stem(key), WILDCARD);
    assert key == Stem(key) + [WILDCARD];
  }

  lemma LongerStemFirst(longer: string, shorter: string, mm: string)
    requires Matches(longer, mm) && Matches(shorter, mm) && Less(mm, shorter)
    requires |longer| > |shorter|
    ensures Less(longer, shorter)
  {
    var stem := Stem(shorter);
    assert shorter == stem + [WILDCARD];
    BelowContinuation(mm, stem, WILDCARD);
    assert longer[|stem|] == mm[|stem|];
    LessByContinuation(longer, stem, WILDCARD);
  }

  lemma SameLengthSameKey(a: string, b: string, mm: string)
    requires Matches(a, mm) && Matches(b, mm) && |a| == |b|
    ensures a == b
  {
    assert Stem(a) == mm[..|a| - 1] == Stem(b);
    assert a == Stem(a) + [WILDCARD] && b == Stem(b) + [WILDCARD];
  }

  // ---------- The ordered map ----------

  datatype VideoParams = VideoParams(encWidth: int, encHeight: int, encFps: int,
                                     decWidth: int, decHeight: int, decFps: int, dualStream: bool)

  datatype CpuParams = CpuParams(machineModel: string, vendor: string, family: int, cpuModel: int, stepping: int,
                                 vcores: int, frequency: int, video: VideoParams)

  /** make_cpuid_key joins these with commas; the three numbers contain none, so the parts can be told apart. */
  datatype CpuId = CpuId(vendor: string, family: int, cpuModel: int, stepping: int)

  datatype Entry = Entry(key: string, cpus: map<CpuId, seq<CpuParams>>)

  /** std::map keeps its keys strictly increasing. */
  ghost predicate Ordered(m: seq<Entry>) {
    forall i, j | 0 <= i < j < |m| :: Less(m[i].key, m[j].key)
  }

  /** lower_bound: the first entry whose key is not below k, or |m| for end(). */
  function LowerBound(m: seq<Entry>, k: string): (i: nat)
    ensures i <= |m|
    ensures forall j | 0 <= j < i :: Less(m[j].key, k)
    ensures i < |m| ==> !Less(m[i].key, k)
  {
    if m == [] || !Less(m[0].key, k) then 0 else 1 + LowerBound(m[1..], k)
  }

  /** find: the entry with key k, or |m|. */
  function Find(m: seq<Entry>, k: string): (i: nat)
    ensures i <= |m|
  {
    var i := LowerBound(m, k);
    if i < |m| && m[i].key == k then i else |m|
  }

  /** Entries at or above the lower bound are exactly those whose key is not below k. */
  lemma AboveLowerBound(m: seq<Entry>, k: string, i: nat)
    requires Ordered(m) && i < |m|
    ensures i >= LowerBound(m, k) <==> !Less(m[i].key, k)
  {
    var b := LowerBound(m, k);
    if b < i && Less(m[i].key, k) {
      LessTransitive(m[b].key, m[i].key, k);
    }
  }

  /** Positions follow keys. */
  lemma KeyOrder(m: seq<Entry>, i: nat, j: nat)
    requires Ordered(m) && i < |m| && j < |m|
    ensures Less(m[i].key, m[j].key) <==> i < j
    ensures m[i].key == m[j].key <==> i == j
  {
    LessTotal(m[i].key, m[j].key);
    LessTotal(m[j].key, m[i].key);
  }

  /** find returns an entry with the key whenever there is one. */
  lemma FindFinds(m: seq<Entry>, k: string, i: nat)
    requires Ordered(m) && i < |m|
    ensures m[i].key == k <==> Find(m, k) == i
  {
    AboveLowerBound(m, k, i);
    LessIrreflexive(k);
    var b := LowerBound(m, k);
    if b < |m| {
      KeyOrder(m, b, i);
    }
  }

  /** The first wildcard entry from position i on, or |m|. */
  function FirstWild(m: seq<Entry>, i: nat): (w: nat)
    requires i <= |m|
    ensures i <= w <= |m|
    ensures w < |m| ==> Wild(m[w].key)
    ensures forall j | i <= j < w :: !Wild(m[j].key)
    decreases |m| - i
  {
    if i == |m| || Wild(m[i].key) then i else FirstWild(m, i + 1)
  }

  /** FindMatchingMachineModel: the exact key, else the first wildcard from the lower bound if it matches. */
  function Match(m: seq<Entry>, mm: string): (r: nat)
    ensures r <= |m|
  {
    var i, w := Find(m, mm), FirstWild(m, LowerBound(m, mm));
    if i < |m| then i
    else if w < |m| && Matches(m[w].key, mm) then w
    else |m|
  }

  /** The wildcard entry that ought to be found: no other match has a longer stem. */
  ghost predicate LongestMatch(m: seq<Entry>, mm: string, k: nat) {
    k < |m| && Matches(m[k].key, mm) && forall j | 0 <= j < |m| && Matches(m[j].key, mm) :: |m[j].key| <= |m[k].key|
  }

  /** Entry j is a wildcard that sorts between the name and entry k. */
  predicate Between(m: seq<Entry>, mm: string, j: nat, k: nat)
    requires j < |m| && k < |m|
  {
    Wild(m[j].key) && Less(mm, m[j].key) && Less(m[j].key, m[k].key)
  }

  /** With no exact key, the entries above the name are those from the lower bound on. */
  lemma AboveName(m: seq<Entry>, mm: string, j: nat)
    requires Ordered(m) && j < |m| && Find(m, mm) == |m|
    ensures Less(mm, m[j].key) <==> LowerBound(m, mm) <= j
  {
    FindFinds(m, mm, j);
    AboveLowerBound(m, mm, j);
    LessTotal(mm, m[j].key);
    LessTotal(m[j].key, mm);
  }

  lemma BetweenIsBetween(m: seq<Entry>, mm: string, k: nat)
    requires Ordered(m) && k < |m| && Find(m, mm) == |m|
    ensures forall j: nat | j < |m| :: Between(m, mm, j, k) <==> Wild(m[j].key) && LowerBound(m, mm) <= j < k
  {
    forall j: nat | j < |m| ensures Between(m, mm, j, k) <==> Wild(m[j].key) && LowerBound(m, mm) <= j < k {
      KeyOrder(m, j, k);
      AboveName(m, mm, j);
    }
  }

  /** Of two matches above the name the one with the longer stem comes first. */
  lemma LongerMatchEarlier(m: seq<Entry>, mm: string, j: nat, r: nat)
    requires Ordered(m) && j < |m| && r < |m| && Less(mm, m[r].key)
    requires Matches(m[j].key, mm) && Matches(m[r].key, mm)
    ensures |m[j].key| > |m[r].key| ==> j < r
    ensures |m[j].key| == |m[r].key| ==> j == r
  {
    KeyOrder(m, j, r);
    if |m[j].key| > |m[r].key| {
      LongerStemFirst(m[j].key, m[r].key, mm);
    } else if |m[j].key| == |m[r].key| {
      SameLengthSameKey(m[j].key, m[r].key, mm);
    }
  }

  /** A wildcard entry that is returned has the longest stem of the matches above the name: of all, below '~'. */
  lemma ReturnsLongestStem(m: seq<Entry>, mm: string)
    requires Ordered(m) && Match(m, mm) < |m| && Find(m, mm) == |m|
    ensures var r := Match(m, mm);
            && Matches(m[r].key, mm) && Less(mm, m[r].key)
            && forall j: nat | j < |m| && Matches(m[j].key, mm) && Less(mm, m[j].key) :: |m[j].key| <= |m[r].key|
    ensures BelowWildcard(mm) ==> LongestMatch(m, mm, Match(m, mm))
  {
    var r := Match(m, mm);
    AboveName(m, mm, r);
    forall j: nat | j < |m| && Matches(m[j].key, mm) && Less(mm, m[j].key) ensures |m[j].key| <= |m[r].key| {
      AboveName(m, mm, j);
      LongerMatchEarlier(m, mm, j, r);
    }
    if BelowWildcard(mm) {
      forall j: nat | j < |m| && Matches(m[j].key, mm) ensures Less(mm, m[j].key) {
        MatchesAbove(m[j].key, mm);
      }
    }
  }

  /**
   * With no exact key, the longest match is returned exactly when it sorts above the name and no
   * wildcard key that does not match sorts between the two; such a key shadows it.
   */
  lemma FindsLongestExactlyWhen(m: seq<Entry>, mm: string, k: nat)
    requires Ordered(m) && Find(m, mm) == |m| && LongestMatch(m, mm, k)
    ensures Match(m, mm) == k <==>
            Less(mm, m[k].key) && forall j: nat | j < |m| && Between(m, mm, j, k) :: Matches(m[j].key, mm)
    ensures Less(mm, m[k].key) ==> Match(m, mm) == k || Match(m, mm) == |m|
    ensures BelowWildcard(mm) ==> Less(mm, m[k].key)
  {
    AboveName(m, mm, k);
    BetweenIsBetween(m, mm, k);
    if BelowWildcard(mm) {
      MatchesAbove(m[k].key, mm);
    }
    var w := FirstWild(m, LowerBound(m, mm));
    if w < |m| && Matches(m[w].key, mm) {
      AboveName(m, mm, w);
      LongerMatchEarlier(m, mm, k, w);
    }
    hide Less, Find, LowerBound, FirstWild;
  }

  /** A name with '~' in it: its longest match sorts below it and is lost, and a shorter match is returned. */
  lemma LostBelowNameExample()
    ensures var m := [Entry("a~", map[]), Entry("~", map[])];
            Ordered(m) && LongestMatch(m, "a~b", 0) && Match(m, "a~b") == 1
  {
    var m := [Entry("a~", map[]), Entry("~", map[])];
    assert Less("a~", "a~b") by {
      assert "a~"[1..] == "~" && "a~b"[1..] == "~b";
      assert "~"[1..] == "" && "~b"[1..] == "b";
    }
    assert !Less("~", "a~b") && Less("a~b", "~") && Less("a~", "~");
    assert LowerBound(m[1..], "a~b") == 0;
    assert LowerBound(m, "a~b") == 1;
    assert Stem("a~") == "a" && Stem("~") == "";
  }

  /** Entry i is the exact key, or else the wildcard that matches and is the first wildcard above the name. */
  ghost predicate Answers(m: seq<Entry>, name: string, i: nat) {
    && i < |m|
    && (|| m[i].key == name
        || (&& (forall e | e in m :: e.key != name)
            && Matches(m[i].key, name) && Less(name, m[i].key)
            && forall j: nat | j < |m| :: !Between(m, name, j, i)))
  }

  lemma MatchExactlyWhen(m: seq<Entry>, name: string, i: nat)
    requires Ordered(m) && i < |m|
    ensures Match(m, name) == i <==> Answers(m, name, i)
  {
    forall j: nat | j < |m| ensures m[j].key == name <==> Find(m, name) == j {
      FindFinds(m, name, j);
    }
    if Find(m, name) == |m| {
      AboveName(m, name, i);
      BetweenIsBetween(m, name, i);
    }
    hide Less, LowerBound, Matches, Wild;
  }

  /** A longer wildcard key of another model shadows a matching one. */
  lemma ShadowingExample()
    ensures var m := [Entry("ab~", map[]), Entry("a~", map[])];
            Ordered(m) && LongestMatch(m, "aa", 1) && Match(m, "aa") == |m|
  {
    var m := [Entry("ab~", map[]), Entry("a~", map[])];
    assert Less("ab~", "a~") by {
      assert "ab~"[1..] == "b~" && "a~"[1..] == "~";
    }
    assert !Less("ab~", "aa") by {
      assert "ab~"[1..] == "b~" && "aa"[1..] == "a";
    }
    assert LowerBound(m, "aa") == 0;
    assert Wild("ab~") && Stem("ab~") == "ab" && Stem("a~") == "a";
    assert !Matches("ab~", "aa");
  }

  // ---------- Profiles ----------

  /** cpuParamsCompare: more cores first, then the higher frequency. */
  predicate Compare(lhs: CpuParams, rhs: CpuParams) {
    if lhs.vcores == rhs.vcores then lhs.frequency > rhs.frequency else lhs.vcores > rhs.vcores
  }

  /** None is better than a later one. */
  predicate BestLast(s: seq<CpuParams>) {
    forall i, j | 0 <= i < j < |s| :: !Compare(s[i], s[j])
  }

  /** What std::sort(rbegin, rend) leaves: the same profiles, none better than a later one. */
  predicate IsSorting(before: seq<CpuParams>, after: seq<CpuParams>) {
    multiset(after) == multiset(before) && |after| == |before| && BestLast(after)
  }

  function InsertProfile(s: seq<CpuParams>, p: CpuParams): (t: seq<CpuParams>)
    ensures |t| == |s| + 1
  {
    if s == [] || !Compare(s[|s| - 1], p) then s + [p]
    else InsertProfile(s[..|s| - 1], p) + [s[|s| - 1]]
  }

  lemma {:induction false} InsertProfileKeeps(s: seq<CpuParams>, p: CpuParams)
    ensures multiset(InsertProfile(s, p)) == multiset(s) + multiset{p}
    decreases |s|
  {
    if s != [] && Compare(s[|s| - 1], p) {
      var n := |s| - 1;
      InsertProfileKeeps(s[..n], p);
      assert s == s[..n] + [s[n]];
    }
  }

  lemma InsertProfileHas(s: seq<CpuParams>, p: CpuParams, x: CpuParams)
    ensures x in InsertProfile(s, p) <==> x in s || x == p
  {
    InsertProfileKeeps(s, p);
    hide InsertProfile;
    assert x in multiset(InsertProfile(s, p)) <==> x in multiset(s) || x == p;
  }

  lemma {:induction false} InsertProfileSorts(s: seq<CpuParams>, p: CpuParams)
    requires BestLast(s)
    ensures BestLast(InsertProfile(s, p))
    decreases |s|
  {
    if s != [] && Compare(s[|s| - 1], p) {
      var n, t := |s| - 1, InsertProfile(s[..|s| - 1], p);
      InsertProfileSorts(s[..n], p);
      assert InsertProfile(s, p) == t + [s[n]];
      hide InsertProfile;
      forall i | 0 <= i < |t| ensures !Compare(t[i], s[n]) {
        InsertProfileHas(s[..n], p, t[i]);
      }
      hide Compare;
    }
  }

  /** There is always such a result: the comparison is a strict weak order. */
  lemma {:induction false} SortingExists(list: seq<CpuParams>)
    ensures exists s :: IsSorting(list, s)
    decreases |list|
  {
    if list == [] {
      assert IsSorting(list, []);
    } else {
      var n := |list| - 1;
      SortingExists(list[..n]);
      var s :| IsSorting(list[..n], s);
      InsertProfileSorts(s, list[n]);
      InsertProfileKeeps(s, list[n]);
      assert list == list[..n] + [list[n]];
      assert IsSorting(list, InsertProfile(s, list[n])) by {
        hide BestLast, InsertProfile;
      }
    }
  }

  predicate Fits(p: CpuParams, cpus: int, speed: int) {
    p.vcores <= cpus && p.frequency <= speed
  }

  /** p has fewer cores than r, or as many and no higher frequency. */
  predicate AtMost(p: CpuParams, r: CpuParams) {
    p.vcores < r.vcores || (p.vcores == r.vcores && p.frequency <= r.frequency)
  }

  /** r is a profile that fits and that no fitting profile exceeds, or the default when none fits. */
  ghost predicate IsBestFit(list: seq<CpuParams>, cpus: int, speed: int, default: CpuParams, r: CpuParams) {
    if exists p | p in list :: Fits(p, cpus, speed) then
      r in list && Fits(r, cpus, speed) && forall p | p in list && Fits(p, cpus, speed) :: AtMost(p, r)
    else r == default
  }

  /** Whatever order the sort leaves, the cores and frequency of the answer are the same. */
  lemma BestFitAgrees(a: seq<CpuParams>, b: seq<CpuParams>, cpus: int, speed: int, default: CpuParams,
                      r: CpuParams, t: CpuParams)
    requires multiset(a) == multiset(b)
    requires IsBestFit(a, cpus, speed, default, r) && IsBestFit(b, cpus, speed, default, t)
    ensures r.vcores == t.vcores && r.frequency == t.frequency
  {
    forall p ensures p in a <==> p in b {
      assert p in multiset(a) <==> p in multiset(b);
    }
  }

  lemma BestFitOfSame(a: seq<CpuParams>, b: seq<CpuParams>, cpus: int, speed: int, default: CpuParams, r: CpuParams)
    requires multiset(a) == multiset(b)
    ensures IsBestFit(a, cpus, speed, default, r) <==> IsBestFit(b, cpus, speed, default, r)
  {
    forall p ensures p in a <==> p in b {
      assert p in multiset(a) <==> p in multiset(b);
    }
  }

  /** An entry of the map and one of its CPU ids. */
  datatype Place = Nowhere | At(entry: nat, id: CpuId)

  /** The entry for the machine, for the base board if one is used, or else the default entry. */
  function MachineEntry(m: seq<Entry>, machine: string, baseboard: string): (i: nat)
    ensures i <= |m|
  {
    var a := Match(m, machine);
    var b := if a == |m| && baseboard != "" then Match(m, baseboard) else a;
    if b == |m| then Find(m, "") else b
  }

  /** Inside the entry, the exact CPU id with stepping 0, or the vendor's. */
  function PlaceOf(m: seq<Entry>, machine: string, baseboard: string, vendor: string, family: int, model: int): (p: Place)
    ensures p.At? ==> p.entry < |m| && p.id in m[p.entry].cpus
  {
    var i := MachineEntry(m, machine, baseboard);
    if i == |m| then Nowhere
    else if CpuId(vendor, family, model, 0) in m[i].cpus then At(i, CpuId(vendor, family, model, 0))
    else if CpuId(vendor, 0, 0, 0) in m[i].cpus then At(i, CpuId(vendor, 0, 0, 0))
    else Nowhere
  }

  /** The entry that speaks for the machine: its name's, else its base board's, else the one with no name. */
  ghost predicate Speaks(m: seq<Entry>, machine: string, baseboard: string, i: nat) {
    || Answers(m, machine, i)
    || (&& (forall j: nat :: !Answers(m, machine, j))
        && (|| (baseboard != "" && Answers(m, baseboard, i))
            || ((baseboard != "" ==> forall j: nat :: !Answers(m, baseboard, j)) && i < |m| && m[i].key == "")))
  }

  /** In the entry that speaks for the machine, the profiles of the very CPU, or of its vendor when it has none. */
  ghost predicate Serves(m: seq<Entry>, machine: string, baseboard: string, vendor: string, family: int, model: int,
                         i: nat, id: CpuId)
  {
    && Speaks(m, machine, baseboard, i) && i < |m| && id in m[i].cpus
    && (|| id == CpuId(vendor, family, model, 0)
        || (id == CpuId(vendor, 0, 0, 0) && CpuId(vendor, family, model, 0) !in m[i].cpus))
  }

  lemma MachineEntrySpeaks(m: seq<Entry>, machine: string, baseboard: string, i: nat)
    requires Ordered(m) && i < |m|
    ensures MachineEntry(m, machine, baseboard) == i <==> Speaks(m, machine, baseboard, i)
  {
    forall j: nat | j < |m|
      ensures Match(m, machine) == j <==> Answers(m, machine, j)
      ensures Match(m, baseboard) == j <==> Answers(m, baseboard, j)
    {
      MatchExactlyWhen(m, machine, j);
      MatchExactlyWhen(m, baseboard, j);
    }
    FindFinds(m, "", i);
    assert forall j: nat, name | Answers(m, name, j) :: j < |m|;
    var a, b := Match(m, machine), Match(m, baseboard);
    assert a < |m| ==> Answers(m, machine, a);
    assert b < |m| ==> Answers(m, baseboard, b);
    hide Answers, Match, Find;
  }

  /** The lookup reaches the one place that serves the CPU, and nothing exactly when none does. */
  lemma PlaceExactlyWhen(m: seq<Entry>, machine: string, baseboard: string, vendor: string, family: int, model: int,
                         i: nat, id: CpuId)
    requires Ordered(m)
    ensures PlaceOf(m, machine, baseboard, vendor, family, model) == At(i, id) <==>
            Serves(m, machine, baseboard, vendor, family, model, i, id)
  {
    if i < |m| {
      MachineEntrySpeaks(m, machine, baseboard, i);
    }
    hide MachineEntry, Speaks;
  }

  /** The nameless entry is used for a named machine exactly when no key answers either name. */
  lemma DefaultEntryExactlyWhen(m: seq<Entry>, machine: string, baseboard: string, i: nat)
    requires Ordered(m) && i < |m| && m[i].key == "" && machine != ""
    ensures MachineEntry(m, machine, baseboard) == i <==>
            (forall j: nat :: !Answers(m, machine, j)) && (baseboard != "" ==> forall j: nat :: !Answers(m, baseboard, j))
  {
    MachineEntrySpeaks(m, machine, baseboard, i);
  }

  /** An entry for the very machine shuts out all others: without the CPU or its vendor nothing is found. */
  lemma OwnEntryDecides(m: seq<Entry>, machine: string, baseboard: string, vendor: string, family: int, model: int, i: nat)
    requires Ordered(m) && i < |m| && m[i].key == machine
    ensures PlaceOf(m, machine, baseboard, vendor, family, model) == Nowhere <==>
            CpuId(vendor, family, model, 0) !in m[i].cpus && CpuId(vendor, 0, 0, 0) !in m[i].cpus
    ensures CpuId(vendor, family, model, 0) in m[i].cpus ==>
            PlaceOf(m, machine, baseboard, vendor, family, model) == At(i, CpuId(vendor, family, model, 0))
  {
    FindFinds(m, machine, i);
  }

  // ---------- Repeated calls ----------

  /** n is m with the list at place sorted; nothing else changes. */
  ghost predicate SortedAt(m: seq<Entry>, n: seq<Entry>, place: Place) {
    match place
    case Nowhere => n == m
    case At(i, id) =>
      && |n| == |m| && i < |m| && id in m[i].cpus && id in n[i].cpus
      && n[i] == Entry(m[i].key, m[i].cpus[id := n[i].cpus[id]])
      && n == m[i := n[i]]
      && IsSorting(m[i].cpus[id], n[i].cpus[id])
  }

  /** The same keys and CPU ids, and the same profiles in every list, in any order. */
  ghost predicate SameProfiles(m: seq<Entry>, n: seq<Entry>) {
    && |m| == |n|
    && (forall i | 0 <= i < |m| :: m[i].key == n[i].key && m[i].cpus.Keys == n[i].cpus.Keys)
    && (forall i, id | 0 <= i < |m| && id in m[i].cpus :: multiset(m[i].cpus[id]) == multiset(n[i].cpus[id]))
  }

  lemma SortedSame(m: seq<Entry>, n: seq<Entry>, place: Place)
    requires SortedAt(m, n, place)
    ensures SameProfiles(m, n)
  {
    hide BestLast;
  }

  lemma SameAsItself(m: seq<Entry>)
    ensures SameProfiles(m, m)
  {
  }

  lemma SameProfilesTransitive(l: seq<Entry>, m: seq<Entry>, n: seq<Entry>)
    requires SameProfiles(l, m) && SameProfiles(m, n)
    ensures SameProfiles(l, n)
  {
  }

  lemma SameProfilesSymmetric(m: seq<Entry>, n: seq<Entry>)
    requires SameProfiles(m, n)
    ensures SameProfiles(n, m)
  {
  }

  lemma SameAnswers(m: seq<Entry>, n: seq<Entry>, name: string, i: nat)
    requires SameProfiles(m, n) && Answers(m, name, i)
    ensures Answers(n, name, i)
  {
    forall e | e in n && m[i].key != name ensures e.key != name {
      var j :| 0 <= j < |n| && n[j] == e;
      assert m[j] in m && m[j].key == e.key;
    }
    forall j: nat | j < |n| ensures Between(n, name, j, i) <==> Between(m, name, j, i) {
    }
  }

  lemma SameMatch(m: seq<Entry>, n: seq<Entry>, name: string)
    requires Ordered(m) && Ordered(n) && SameProfiles(m, n) && SameProfiles(n, m)
    ensures Match(m, name) == Match(n, name)
  {
    var i, j := Match(m, name), Match(n, name);
    if i < |m| {
      MatchExactlyWhen(m, name, i);
      SameAnswers(m, n, name, i);
      MatchExactlyWhen(n, name, i);
    } else if j < |n| {
      MatchExactlyWhen(n, name, j);
      SameAnswers(n, m, name, j);
      MatchExactlyWhen(m, name, j);
    }
  }

  lemma SameDefault(m: seq<Entry>, n: seq<Entry>, key: string)
    requires Ordered(m) && Ordered(n) && SameProfiles(m, n)
    ensures Find(m, key) == Find(n, key)
  {
    var i, j := Find(m, key), Find(n, key);
    if i < |m| {
      FindFinds(m, key, i);
      FindFinds(n, key, i);
    } else if j < |n| {
      FindFinds(n, key, j);
      FindFinds(m, key, j);
    }
  }

  lemma SameKeys(m: seq<Entry>, n: seq<Entry>, i: nat)
    requires SameProfiles(m, n)
    ensures |m| == |n| && (i < |m| ==> forall id :: id in m[i].cpus <==> id in n[i].cpus)
  {
    if i < |m| {
      forall id ensures id in m[i].cpus <==> id in n[i].cpus {
        assert id in m[i].cpus.Keys <==> id in n[i].cpus.Keys;
      }
    }
  }

  /** The order in which profiles are listed does not matter for where the lookup leads. */
  lemma SamePlace(m: seq<Entry>, n: seq<Entry>, machine: string, baseboard: string, vendor: string, family: int, model: int)
    requires Ordered(m) && Ordered(n) && SameProfiles(m, n)
    ensures PlaceOf(m, machine, baseboard, vendor, family, model) == PlaceOf(n, machine, baseboard, vendor, family, model)
  {
    hide Ordered, Match, Find, SameProfiles;
    SameProfilesSymmetric(m, n);
    SameMatch(m, n, machine);
    SameMatch(m, n, baseboard);
    SameDefault(m, n, "");
    var i := MachineEntry(m, machine, baseboard);
    SameKeys(m, n, i);
    assert MachineEntry(n, machine, baseboard) == i;
    hide MachineEntry;
  }

  /** What a call may return from map m, which it finds in any order: the best fit of the place, or the default. */
  ghost predicate IsAnswer(m: seq<Entry>, place: Place, cpus: int, speed: int, default: CpuParams, r: CpuParams) {
    match place
    case Nowhere => r == default
    case At(i, id) => i < |m| && id in m[i].cpus && IsBestFit(m[i].cpus[id], cpus, speed, default, r)
  }

  lemma SameAnswer(m: seq<Entry>, n: seq<Entry>, place: Place, cpus: int, speed: int, default: CpuParams, r: CpuParams)
    requires SameProfiles(m, n)
    ensures IsAnswer(m, place, cpus, speed, default, r) <==> IsAnswer(n, place, cpus, speed, default, r)
  {
    if place.At? && place.entry < |m| {
      var i, id := place.entry, place.id;
      SameKeys(m, n, i);
      if id in m[i].cpus {
        BestFitOfSame(m[i].cpus[id], n[i].cpus[id], cpus, speed, default, r);
      }
    }
  }

  lemma AnswersAgree(m: seq<Entry>, place: Place, cpus: int, speed: int, default: CpuParams, r: CpuParams, t: CpuParams)
    requires IsAnswer(m, place, cpus, speed, default, r) && IsAnswer(m, place, cpus, speed, default, t)
    ensures r.vcores == t.vcores && r.frequency == t.frequency
  {
    if place.At? {
      var list := m[place.entry].cpus[place.id];
      BestFitAgrees(list, list, cpus, speed, default, r, t);
    }
  }

  class CpuMonitor {
    var cpu_params_map: seq<Entry>
    var default_param: CpuParams
    var machine_model: string
    var baseboard_machine_model: string
    var useBaseBoardMachineModel: bool
    var useMaxFreqBasedResCap: bool
    var cpu_vendor: string
    var cpu_family: int
    var cpu_model: int
    var cur_cpus: int
    var max_cpu_speed: int
    var cur_cpu_speed: int

    ghost predicate Valid()
      reads this
    {
      Ordered(cpu_params_map)
    }

    constructor (default: CpuParams)
      ensures Valid() && cpu_params_map == [] && default_param == default
    {
      cpu_params_map := [];
      default_param := default;
      machine_model, baseboard_machine_model, cpu_vendor := "", "", "";
      useBaseBoardMachineModel, useMaxFreqBasedResCap := false, false;
      cpu_family, cpu_model, cur_cpus, max_cpu_speed, cur_cpu_speed := 0, 0, 0, 0, 0;
    }

    /** getComparisonCpuSpeed: the greater of the two speeds, or the current one when the feature is off. */
    function ComparisonCpuSpeed(): (speed: int)
      reads this
      ensures speed >= cur_cpu_speed && (speed == cur_cpu_speed || (useMaxFreqBasedResCap && speed == max_cpu_speed))
      ensures useMaxFreqBasedResCap ==> speed >= max_cpu_speed
    {
      if useMaxFreqBasedResCap && max_cpu_speed > cur_cpu_speed then max_cpu_speed else cur_cpu_speed
    }

    /**
     * Appends p to the list of its CPU in the entry of its machine; either is created when missing.
     * Every other entry and list stays as it is, and the map stays ordered.
     */
    method UpdateCpuParamsMap(p: CpuParams) returns (ghost i: nat)
      requires Valid()
      modifies this`cpu_params_map
      ensures Valid()
      ensures var m, key, id := old(cpu_params_map), p.machineModel, CpuId(p.vendor, p.family, p.cpuModel, p.stepping);
              if exists j | 0 <= j < |m| :: m[j].key == key then
                && i < |m| && m[i].key == key
                && var list := if id in m[i].cpus then m[i].cpus[id] else [];
                   cpu_params_map == m[i := Entry(key, m[i].cpus[id := list + [p]])]
              else
                i <= |m| && cpu_params_map == m[..i] + [Entry(key, map[id := [p]])] + m[i..]
      ensures var id := CpuId(p.vendor, p.family, p.cpuModel, p.stepping);
              && i < |cpu_params_map| && id in cpu_params_map[i].cpus && p in cpu_params_map[i].cpus[id]
              && (p.stepping == 0 ==> forall baseboard ::
                    PlaceOf(cpu_params_map, p.machineModel, baseboard, p.vendor, p.family, p.cpuModel) == At(i, id))
    {
      var key, id := p.machineModel, CpuId(p.vendor, p.family, p.cpuModel, p.stepping);
      var m := cpu_params_map;
      var at := LowerBound(m, key);
      i := at;
      LowerBoundKey(m, key);
      ghost var created := at == |m| || m[at].key != key;
      if created {
        InsertEntry(m, at, Entry(key, map[id := [p]]));
      }
      hide LowerBound, Less;
      if at == |m| || m[at].key != key {
        cpu_params_map := m[..at] + [Entry(key, map[])] + m[at..];
      }
      var cpus := cpu_params_map[at].cpus;
      var list := if id in cpus then cpus[id] else [];
      cpu_params_map := cpu_params_map[at := Entry(key, cpus[id := list + [p]])];
      if created {
        assert cpus == map[] && list + [p] == [p];
        assert cpus[id := list + [p]] == map[id := [p]];
        assert cpu_params_map == m[..at] + [Entry(key, map[id := [p]])] + m[at..];
      }
      hide Ordered, PlaceOf;
      if p.stepping == 0 {
        forall baseboard ensures PlaceOf(cpu_params_map, key, baseboard, p.vendor, p.family, p.cpuModel) == At(i, id) {
          OwnEntryDecides(cpu_params_map, key, baseboard, p.vendor, p.family, p.cpuModel, i);
        }
      }
    }

    method FindMatchingMachineModel(mm: string) returns (r: nat)
      requires Valid()
      ensures r == Match(cpu_params_map, mm)
    {
      var m := cpu_params_map;
      r := Find(m, mm);
      if r == |m| {
        var i := LowerBound(m, mm);
        while i < |m|
          invariant i <= |m| && FirstWild(m, i) == FirstWild(m, LowerBound(m, mm))
        {
          var key := m[i].key;
          if |key| > 0 && key[|key| - 1] == WILDCARD {
            if Stem(key) <= mm {
              r := i;
            }
            break;
          }
          i := i + 1;
        }
      }
    }

    /** The base board's name where it is used. */
    function Baseboard(): string
      reads this
    {
      if useBaseBoardMachineModel then baseboard_machine_model else ""
    }

    /** The three lookups by machine, then the two by CPU id, reach the one place that serves this CPU. */
    method FindProfiles() returns (p: Place)
      requires Valid()
      ensures forall i: nat, id :: p == At(i, id) <==>
                Serves(cpu_params_map, machine_model, Baseboard(), cpu_vendor, cpu_family, cpu_model, i, id)
      ensures p == PlaceOf(cpu_params_map, machine_model, Baseboard(), cpu_vendor, cpu_family, cpu_model)
    {
      var m := cpu_params_map;
      forall i: nat, id
        ensures PlaceOf(m, machine_model, Baseboard(), cpu_vendor, cpu_family, cpu_model) == At(i, id) <==>
                Serves(m, machine_model, Baseboard(), cpu_vendor, cpu_family, cpu_model, i, id)
      {
        PlaceExactlyWhen(m, machine_model, Baseboard(), cpu_vendor, cpu_family, cpu_model, i, id);
      }
      hide Serves, Match, Find, Ordered;
      var i := FindMatchingMachineModel(machine_model);
      if useBaseBoardMachineModel && i == |m| && baseboard_machine_model != "" {
        i := FindMatchingMachineModel(baseboard_machine_model);
      }
      if i == |m| {
        i := Find(m, "");
      }
      if i == |m| {
        return Nowhere;
      }
      var id := CpuId(cpu_vendor, cpu_family, cpu_model, 0);
      if id !in m[i].cpus {
        id := CpuId(cpu_vendor, 0, 0, 0);
      }
      return if id in m[i].cpus then At(i, id) else Nowhere;
    }

    /** Sorts the profiles found in place, keeping the multiset, and returns the best fit or the default. */
    method GetCpuParams() returns (r: CpuParams, place: Place)
      requires Valid()
      modifies this`cpu_params_map
      ensures Valid()
      ensures place == PlaceOf(old(cpu_params_map), machine_model, Baseboard(), cpu_vendor, cpu_family, cpu_model)
      ensures IsAnswer(old(cpu_params_map), place, cur_cpus, ComparisonCpuSpeed(), default_param, r)
      ensures !useMaxFreqBasedResCap ==> IsAnswer(old(cpu_params_map), place, cur_cpus, cur_cpu_speed, default_param, r)
      ensures useMaxFreqBasedResCap && max_cpu_speed >= cur_cpu_speed ==>
                IsAnswer(old(cpu_params_map), place, cur_cpus, max_cpu_speed, default_param, r)
      ensures useMaxFreqBasedResCap && max_cpu_speed <= cur_cpu_speed ==>
                IsAnswer(old(cpu_params_map), place, cur_cpus, cur_cpu_speed, default_param, r)
      ensures SortedAt(old(cpu_params_map), cpu_params_map, place)
    {
      r := default_param;
      place := FindProfiles();
      if place == Nowhere {
        return;
      }
      var e := cpu_params_map[place.entry];
      var list := e.cpus[place.id];
      SortingExists(list);
      var sorted: seq<CpuParams> :| IsSorting(list, sorted);
      hide Less, PlaceOf, IsSorting;
      cpu_params_map := cpu_params_map[place.entry := Entry(e.key, e.cpus[place.id := sorted])];
      r := ScanFromBack(list, sorted);
    }

    /**
     * However often the profile is asked for, with whatever order each sort leaves behind for the next
     * call: every call reaches the same list, and all answers have the same cores and frequency.
     */
    method GetRepeatedly(n: nat) returns (rs: seq<CpuParams>, ghost places: seq<Place>)
      requires Valid()
      modifies this`cpu_params_map
      ensures Valid() && SameProfiles(old(cpu_params_map), cpu_params_map)
      ensures |rs| == |places| == n
      ensures forall i, j | 0 <= i < n && 0 <= j < n ::
                places[i] == places[j] && rs[i].vcores == rs[j].vcores && rs[i].frequency == rs[j].frequency
    {
      ghost var m, speed := cpu_params_map, ComparisonCpuSpeed();
      ghost var place := PlaceOf(m, machine_model, Baseboard(), cpu_vendor, cpu_family, cpu_model);
      rs, places := [], [];
      hide Ordered, PlaceOf, SameProfiles, SortedAt, IsAnswer, IsBestFit;
      SameAsItself(m);
      while |rs| < n
        invariant Valid() && SameProfiles(m, cpu_params_map)
        invariant |rs| == |places| <= n
        invariant forall i | 0 <= i < |rs| ::
                    places[i] == place && IsAnswer(m, place, cur_cpus, speed, default_param, rs[i])
      {
        ghost var before := cpu_params_map;
        SamePlace(m, before, machine_model, Baseboard(), cpu_vendor, cpu_family, cpu_model);
        var r, p := GetCpuParams();
        SameAnswer(m, before, place, cur_cpus, speed, default_param, r);
        SortedSame(before, cpu_params_map, p);
        SameProfilesTransitive(m, before, cpu_params_map);
        rs, places := rs + [r], places + [p];
      }
      forall i, j | 0 <= i < n && 0 <= j < n
        ensures rs[i].vcores == rs[j].vcores && rs[i].frequency == rs[j].frequency
      {
        AnswersAgree(m, place, cur_cpus, speed, default_param, rs[i], rs[j]);
      }
    }

    /** The reverse scan of the sorted list stops at the first profile that fits: the best one. */
    method ScanFromBack(ghost list: seq<CpuParams>, sorted: seq<CpuParams>) returns (r: CpuParams)
      requires IsSorting(list, sorted)
      ensures IsBestFit(list, cur_cpus, ComparisonCpuSpeed(), default_param, r)
      ensures !useMaxFreqBasedResCap ==> IsBestFit(list, cur_cpus, cur_cpu_speed, default_param, r)
      ensures useMaxFreqBasedResCap && max_cpu_speed >= cur_cpu_speed ==>
                IsBestFit(list, cur_cpus, max_cpu_speed, default_param, r)
      ensures useMaxFreqBasedResCap && max_cpu_speed <= cur_cpu_speed ==>
                IsBestFit(list, cur_cpus, cur_cpu_speed, default_param, r)
    {
      forall p ensures p in list <==> p in sorted {
        assert p in multiset(list) <==> p in multiset(sorted);
      }
      r := default_param;
      var k := |sorted|;
      while k > 0
        invariant 0 <= k <= |sorted|
        invariant forall j | k <= j < |sorted| :: !Fits(sorted[j], cur_cpus, ComparisonCpuSpeed())
        invariant r == default_param
      {
        k := k - 1;
        if sorted[k].vcores <= cur_cpus && sorted[k].frequency <= ComparisonCpuSpeed() {
          r := sorted[k];
          break;
        }
      }
    }
  }

  /** The key is in the map exactly when the entry at its lower bound has it. */
  lemma LowerBoundKey(m: seq<Entry>, key: string)
    requires Ordered(m)
    ensures var at := LowerBound(m, key);
            (exists j | 0 <= j < |m| :: m[j].key == key) <==> at < |m| && m[at].key == key
  {
    forall j: nat | j < |m| ensures m[j].key == key <==> Find(m, key) == j {
      FindFinds(m, key, j);
    }
  }

  /** Inserting a missing key at its lower bound keeps the order. */
  lemma InsertEntry(m: seq<Entry>, at: nat, e: Entry)
    requires Ordered(m) && at == LowerBound(m, e.key) && forall j | 0 <= j < |m| :: m[j].key != e.key
    ensures Ordered(m[..at] + [e] + m[at..])
  {
    forall j | at <= j < |m| ensures Less(e.key, m[j].key) {
      AboveLowerBound(m, e.key, j);
      LessTotal(e.key, m[j].key);
    }
    hide Less, LowerBound;
    var m' := m[..at] + [e] + m[at..];
    forall i, j | 0 <= i < j < |m'| ensures Less(m'[i].key, m'[j].key) {
      var p, q := if i < at then i else i - 1, if j < at then j else j - 1;
      if i != at && j != at {
        assert Less(m[p].key, m[q].key);
      }
    }
  }
}
