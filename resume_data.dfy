/** The resume-result store of ResumeDataService: resume records keyed by a
    content hash, the upsert that creates or updates them, the read paths,
    the guard around decoding stored results, and the batch cleanup that
    removes duplicate records of one (job, owner) pair. */
module ResumeData {
  import opened Wrappers
  import opened ResumeKey

  /** A stored resume evaluation: its identity, the content hash, the
      translated results (absent until an evaluation was stored) and the ids
      of the job and of the owning user it references. */
  datatype Resume = Resume(id: nat, hash: string, results: Option<string>, jobId: LongId, ownerId: LongId)

  /** The (job id, owner id) pair the cleanup groups by. */
  type Key = (LongId, LongId)

  function KeyOf(r: Resume): Key { (r.jobId, r.ownerId) }

  /** The IllegalArgumentException raised when a new record's job or user
      does not exist. */
  datatype SaveError = JobNotFound(jobId: LongId) | UserNotFound(userId: LongId)

  /** A derived query declared to return one record fails when several
      records match. */
  datatype LookupError = NonUniqueResult(matches: nat)

  /** One entry of `duplicateCombinations`: a pair and how many of its
      records were removed. */
  datatype Combination = Combination(jobId: LongId, ownerId: LongId, count: nat)

  function ComboKey(c: Combination): Key { (c.jobId, c.ownerId) }

  /** The statistics map returned by the cleanup. The combinations are in
      map iteration order, which is unspecified: read them as a multiset. */
  datatype CleanupReport = CleanupReport(
    totalResumesProcessed: nat,
    totalDuplicatesRemoved: nat,
    uniqueCombinationsWithDuplicates: nat,
    duplicateCombinations: seq<Combination>)

  /** The scalars of a decoded result: Gson yields numbers as doubles. */
  datatype JsonValue = JNumber(number: real) | JString(text: string) | JBool(flag: bool) | JNull

  /** category -> attribute -> value */
  type ResultMap = map<string, map<string, JsonValue>>

  /** What Gson's `fromJson` does with a text: a decoded map, Java null (for
      the text `null` or blank text), or an exception (malformed text). */
  datatype GsonOutcome = Parsed(decoded: ResultMap) | JsonNull | Malformed

  // ----- Collections of records -----

  function IdOf(r: Resume): nat { r.id }

  function HashOf(r: Resume): string { r.hash }

  /** No two positions of `s` agree on `f`. */
  ghost predicate DistinctBy<T>(s: seq<Resume>, f: Resume -> T)
  {
    forall i, j :: 0 <= i < |s| && 0 <= j < |s| && f(s[i]) == f(s[j]) ==> i == j
  }

  /** No two positions hold records with the same id (database identities). */
  ghost predicate DistinctIds(s: seq<Resume>) { DistinctBy(s, IdOf) }

  /** No two positions hold records with the same hash. */
  ghost predicate UniqueHashes(s: seq<Resume>) { DistinctBy(s, HashOf) }

  /** At most one record per (job, owner) pair. */
  ghost predicate Reconciled(s: seq<Resume>) { DistinctBy(s, KeyOf) }

  /** The records of `s` that satisfy `p`, in their order (a derived query
      such as `findByJob_Id`). */
  function Select(s: seq<Resume>, p: Resume -> bool): (r: seq<Resume>)
    ensures forall x {:trigger multiset(r)[x]} :: multiset(r)[x] == if p(x) then multiset(s)[x] else 0
    ensures forall x :: x in r <==> x in s && p(x)
    ensures |r| <= |s|
    decreases |s|
  {
    if s == [] then []
    else
      var init, last := s[..|s| - 1], s[|s| - 1];
      assert s == init + [last];
      var r := Select(init, p) + (if p(last) then [last] else []);
      assert forall x :: x in r <==> multiset(r)[x] > 0;
      r
  }

  /** The records of one (job, owner) pair. */
  function Group(s: seq<Resume>, k: Key): seq<Resume>
  {
    Select(s, r => KeyOf(r) == k)
  }

  /** The pairs that occur in `s`. */
  ghost function Keys(s: seq<Resume>): set<Key>
  {
    set r | r in s :: KeyOf(r)
  }

  /** The pairs with two or more records. */
  ghost function DupKeys(s: seq<Resume>): set<Key>
  {
    set k | k in Keys(s) && |Group(s, k)| > 1
  }

  /** `r` has a sibling in its group with a larger id. */
  ghost predicate Superseded(s: seq<Resume>, r: Resume)
  {
    exists x :: x in s && KeyOf(x) == KeyOf(r) && x.id > r.id
  }

  /** The position of the record a descending sort by id puts first: the
      first record with the largest id. */
  function NewestIndex(g: seq<Resume>): (m: nat)
    requires g != []
    ensures m < |g|
    ensures forall j :: 0 <= j < |g| ==> g[j].id <= g[m].id
    ensures forall j :: 0 <= j < m ==> g[j].id < g[m].id
    decreases |g|
  {
    if |g| == 1 then 0
    else
      var m' := NewestIndex(g[1..]);
      if g[0].id >= g[1 + m'].id then 0 else 1 + m'
  }

  /** The record the cleanup keeps for a group. */
  function Newest(g: seq<Resume>): Resume
    requires g != []
  {
    g[NewestIndex(g)]
  }

  /** `group.subList(1, size)` after the descending sort: every record but
      the kept one. (Only its contents matter: it is handed to a bulk
      delete.) */
  function Duplicates(g: seq<Resume>): (d: seq<Resume>)
    requires g != [] && DistinctIds(g)
    ensures |d| == |g| - 1
    ensures forall x :: x in d <==> x in g && x.id < Newest(g).id
  {
    var m := NewestIndex(g);
    RemoveAt(g, m);
    g[..m] + g[m + 1..]
  }

  /** Cutting position `m` out of a sequence with distinct ids leaves
      exactly the records whose id differs from the one at `m`. */
  lemma RemoveAt(g: seq<Resume>, m: nat)
    requires m < |g| && DistinctIds(g)
    ensures forall x :: x in g[..m] + g[m + 1..] <==> x in g && x.id != g[m].id
  {
    var d := g[..m] + g[m + 1..];
    forall x | x in d ensures x in g && x.id != g[m].id {
      var j :| 0 <= j < |d| && d[j] == x;
      var p := if j < m then j else j + 1;
      assert g[p] == x && p != m;
    }
    forall x | x in g && x.id != g[m].id ensures x in d {
      var p :| 0 <= p < |g| && g[p] == x;
      if p < m { assert d[p] == x; } else { assert d[p - 1] == x; }
    }
  }

  // ----- Lemmas about groups -----

  /** Selecting keeps whatever was distinct distinct. */
  lemma {:induction false} SelectDistinct<T>(s: seq<Resume>, p: Resume -> bool, f: Resume -> T)
    requires DistinctBy(s, f)
    ensures DistinctBy(Select(s, p), f)
    decreases |s|
  {
    if s != [] {
      var init, last := s[..|s| - 1], s[|s| - 1];
      DistinctInit(s, f);
      SelectDistinct(init, p, f);
      var r0 := Select(init, p);
      forall y | y in r0 ensures f(y) != f(last) {
        var m :| 0 <= m < |init| && init[m] == y;
        assert s[m] == y && s[|s| - 1] == last;
      }
      var r := r0 + (if p(last) then [last] else []);
      assert r == Select(s, p);
      forall i, j | 0 <= i < |r| && 0 <= j < |r| && f(r[i]) == f(r[j]) ensures i == j {
        if i < |r0| { assert r[i] in r0; }
        if j < |r0| { assert r[j] in r0; }
      }
    }
  }

  /** A pair occurs exactly when its group is non-empty. */
  lemma GroupNonEmpty(s: seq<Resume>, k: Key)
    ensures Group(s, k) != [] <==> k in Keys(s)
  {
    var g := Group(s, k);
    if g != [] {
      assert g[0] in g;
    }
    if k in Keys(s) {
      var r :| r in s && KeyOf(r) == k;
      assert r in g;
    }
  }

  /** Inside its group, a record is superseded exactly when its id is below
      that of the kept record. */
  lemma SupersededInGroup(s: seq<Resume>, r: Resume)
    requires r in s
    ensures Group(s, KeyOf(r)) != []
    ensures Superseded(s, r) <==> r.id < Newest(Group(s, KeyOf(r))).id
  {
    var g := Group(s, KeyOf(r));
    assert r in g;
    var n := Newest(g);
    assert n in g;
    if Superseded(s, r) {
      var x :| x in s && KeyOf(x) == KeyOf(r) && x.id > r.id;
      assert x in g;
    }
  }

  /** Dropping the last record keeps the rest distinct. */
  lemma DistinctInit<T>(s: seq<Resume>, f: Resume -> T)
    requires DistinctBy(s, f) && s != []
    ensures DistinctBy(s[..|s| - 1], f)
  {
    var init := s[..|s| - 1];
    forall i, j | 0 <= i < |init| && 0 <= j < |init| && f(init[i]) == f(init[j]) ensures i == j {
      assert s[i] == init[i] && s[j] == init[j];
    }
  }

  /** In a reconciled sequence the last record's pair does not occur before it. */
  lemma ReconciledLastIsNew(s: seq<Resume>)
    requires Reconciled(s) && s != []
    ensures KeyOf(s[|s| - 1]) !in Keys(s[..|s| - 1])
  {
    var init, last := s[..|s| - 1], s[|s| - 1];
    forall x | x in init ensures KeyOf(x) != KeyOf(last) {
      var m :| 0 <= m < |init| && init[m] == x;
      assert s[m] == x;
    }
  }

  /** Every group of a reconciled sequence has at most one record. */
  lemma {:induction false} ReconciledGroupSmall(s: seq<Resume>, k: Key)
    requires Reconciled(s)
    ensures |Group(s, k)| <= 1
    decreases |s|
  {
    if s != [] {
      var init, last := s[..|s| - 1], s[|s| - 1];
      DistinctInit(s, KeyOf);
      ReconciledGroupSmall(init, k);
      assert Group(s, k) == Group(init, k) + (if KeyOf(last) == k then [last] else []);
      if KeyOf(last) == k && Group(init, k) != [] {
        ReconciledLastIsNew(s);
        GroupNonEmpty(init, k);
        assert false;
      }
    }
  }

  /** A reconciled sequence has as many records as pairs. */
  lemma {:induction false} ReconciledCount(s: seq<Resume>)
    requires Reconciled(s)
    ensures |Keys(s)| == |s|
    decreases |s|
  {
    if s != [] {
      var init, last := s[..|s| - 1], s[|s| - 1];
      DistinctInit(s, KeyOf);
      ReconciledCount(init);
      ReconciledLastIsNew(s);
      assert s == init + [last];
      assert Keys(s) == Keys(init) + {KeyOf(last)};
    }
  }

  /** Reconciled stores have nothing to clean: no record is superseded,
      the records correspond one to one to the pairs, and no pair has two
      records. */
  lemma ReconciledFacts(s: seq<Resume>)
    requires Reconciled(s)
    ensures forall r :: r in s ==> !Superseded(s, r)
    ensures |Keys(s)| == |s|
    ensures DupKeys(s) == {}
  {
    forall r, x | r in s && x in s && KeyOf(x) == KeyOf(r) ensures x == r {
      var i :| 0 <= i < |s| && s[i] == r;
      var j :| 0 <= j < |s| && s[j] == x;
    }
    forall k | k in DupKeys(s) ensures false {
      ReconciledGroupSmall(s, k);
    }
    ReconciledCount(s);
  }

  /** What the cleanup leaves behind: for every pair that had records, the
      newest one survives and is the only one of its pair; a record alone in
      its group survives; hence the survivors are reconciled and cover the
      same pairs. */
  lemma CleanupSurvivors(all: seq<Resume>, rem: seq<Resume>)
    requires DistinctIds(all) && DistinctIds(rem)
    requires forall r :: r in rem <==> r in all && !Superseded(all, r)
    ensures forall k :: k in Keys(all) ==> Newest(Group(all, k)) in rem
    ensures forall r :: r in all && |Group(all, KeyOf(r))| == 1 ==> r in rem
    ensures forall r1, r2 :: r1 in rem && r2 in rem && KeyOf(r1) == KeyOf(r2) ==> r1 == r2
    ensures Reconciled(rem)
    ensures Keys(rem) == Keys(all)
    ensures |rem| == |Keys(all)|
  {
    SurvivorsCover(all, rem);
    SurvivorsOnePerPair(all, rem);
    ReconciledFacts(rem);
  }

  /** The newest record of every group survives, and so does a record alone
      in its group; so every pair keeps a survivor. */
  lemma SurvivorsCover(all: seq<Resume>, rem: seq<Resume>)
    requires DistinctIds(all)
    requires forall r :: r in rem <==> r in all && !Superseded(all, r)
    ensures forall k :: k in Keys(all) ==> Newest(Group(all, k)) in rem
    ensures forall r :: r in all && |Group(all, KeyOf(r))| == 1 ==> r in rem
    ensures Keys(rem) == Keys(all)
  {
    forall k | k in Keys(all) ensures Newest(Group(all, k)) in rem {
      GroupNonEmpty(all, k);
      var g := Group(all, k);
      var n := Newest(g);
      assert n in g;
      SupersededInGroup(all, n);
    }
    forall r | r in all && |Group(all, KeyOf(r))| == 1 ensures r in rem {
      SupersededInGroup(all, r);
      var g := Group(all, KeyOf(r));
      assert r in g && Newest(g) in g;
      assert r == g[0] && Newest(g) == g[0];
    }
    forall k | k in Keys(all) ensures k in Keys(rem) {
      GroupNonEmpty(all, k);
      var n := Newest(Group(all, k));
      assert n in Group(all, k);
      assert n in rem && KeyOf(n) == k;
    }
  }

  /** No two survivors share a pair. */
  lemma SurvivorsOnePerPair(all: seq<Resume>, rem: seq<Resume>)
    requires DistinctIds(all) && DistinctIds(rem)
    requires forall r :: r in rem <==> r in all && !Superseded(all, r)
    ensures forall r1, r2 :: r1 in rem && r2 in rem && KeyOf(r1) == KeyOf(r2) ==> r1 == r2
    ensures Reconciled(rem)
  {
    forall r1, r2 | r1 in rem && r2 in rem && KeyOf(r1) == KeyOf(r2) ensures r1 == r2 {
      SupersededInGroup(all, r1);
      SupersededInGroup(all, r2);
      var i :| 0 <= i < |all| && all[i] == r1;
      var j :| 0 <= j < |all| && all[j] == r2;
    }
    forall i, j | 0 <= i < |rem| && 0 <= j < |rem| && KeyOf(rem[i]) == KeyOf(rem[j]) ensures i == j {
      assert rem[i] in rem && rem[j] in rem;
    }
  }

  // ----- The cleanup's computation -----

  /** `groups` maps each pair occurring in `all` to its group, and nothing else. */
  ghost predicate GroupsOf(all: seq<Resume>, groups: map<Key, seq<Resume>>)
  {
    && (forall k :: k in groups ==> groups[k] == Group(all, k) && groups[k] != [])
    && (forall k :: k !in groups ==> Group(all, k) == [])
  }

  /** The first loop of the cleanup: files every record under its pair,
      in order, as `computeIfAbsent(key, ...).add(resume)` does. */
  method GroupByPair(all: seq<Resume>) returns (groups: map<Key, seq<Resume>>)
    ensures GroupsOf(all, groups)
  {
    groups := map[];
    var i := 0;
    while i < |all|
      invariant 0 <= i <= |all|
      invariant forall k :: k in groups ==> groups[k] == Group(all[..i], k) && groups[k] != []
      invariant forall k :: k !in groups ==> Group(all[..i], k) == []
    {
      var r := all[i];
      var k := KeyOf(r);
      assert all[..i + 1][..i] == all[..i];
      groups := groups[k := (if k in groups then groups[k] else []) + [r]];
      i := i + 1;
    }
    assert all[..i] == all;
  }

  /** The pairs named by a list of combinations. */
  function ComboKeys(cs: seq<Combination>): set<Key>
    decreases |cs|
  {
    if cs == [] then {} else ComboKeys(cs[..|cs| - 1]) + {ComboKey(cs[|cs| - 1])}
  }

  /** A grouping as the first loop of the cleanup builds it: each pair maps
      to its non-empty list of records, all of that pair, with distinct ids. */
  ghost predicate WellGrouped(groups: map<Key, seq<Resume>>)
  {
    forall k :: k in groups ==>
      groups[k] != [] && DistinctIds(groups[k]) && (forall r :: r in groups[k] ==> KeyOf(r) == k)
  }

  /** `scanned` holds exactly the records of the groups in `done`. */
  ghost predicate ScannedExactly(groups: map<Key, seq<Resume>>, done: set<Key>, scanned: seq<Resume>)
  {
    forall r {:trigger multiset(scanned)[r]} ::
      multiset(scanned)[r] == if KeyOf(r) in done && KeyOf(r) in groups then multiset(groups[KeyOf(r)])[r] else 0
  }

  /** `toDelete` holds exactly the non-newest records of the groups in `done`. */
  ghost predicate MarkedExactly(groups: map<Key, seq<Resume>>, done: set<Key>, toDelete: seq<Resume>)
    requires forall k :: k in groups ==> groups[k] != []
  {
    forall r {:trigger r in toDelete} ::
      r in toDelete <==> KeyOf(r) in done && KeyOf(r) in groups && r in groups[KeyOf(r)] && r.id < Newest(groups[KeyOf(r)]).id
  }

  /** `combinations` has one entry per group in `done` with two or more
      records, carrying that group's size minus one. */
  ghost predicate CombinationsExactly(groups: map<Key, seq<Resume>>, done: set<Key>, combinations: seq<Combination>)
  {
    && ComboKeys(combinations) == (set k | k in done && k in groups && |groups[k]| > 1)
    && |combinations| == |ComboKeys(combinations)|
    && forall c :: c in combinations ==> ComboKey(c) in groups && c.count == |groups[ComboKey(c)]| - 1
  }

  lemma ScanStep(groups: map<Key, seq<Resume>>, done: set<Key>, scanned: seq<Resume>, k: Key)
    requires WellGrouped(groups) && k in groups && k !in done
    requires ScannedExactly(groups, done, scanned)
    ensures ScannedExactly(groups, done + {k}, scanned + groups[k])
  {
    forall r ensures multiset(scanned + groups[k])[r]
      == if KeyOf(r) in done + {k} && KeyOf(r) in groups then multiset(groups[KeyOf(r)])[r] else 0
    {
      assert multiset(scanned + groups[k])[r] == multiset(scanned)[r] + multiset(groups[k])[r];
      if KeyOf(r) != k {
        assert r !in groups[k];
        assert multiset(groups[k])[r] == 0;
      }
    }
  }

  lemma MarkStep(groups: map<Key, seq<Resume>>, done: set<Key>, toDelete: seq<Resume>, k: Key, duplicates: seq<Resume>)
    requires WellGrouped(groups) && k in groups && k !in done
    requires MarkedExactly(groups, done, toDelete)
    requires forall x :: x in duplicates <==> x in groups[k] && x.id < Newest(groups[k]).id
    ensures MarkedExactly(groups, done + {k}, toDelete + duplicates)
  {
  }

  lemma CombinationStep(groups: map<Key, seq<Resume>>, done: set<Key>, combinations: seq<Combination>, k: Key, entry: Combination)
    requires k in groups && k !in done && |groups[k]| > 1
    requires ComboKey(entry) == k && entry.count == |groups[k]| - 1
    requires CombinationsExactly(groups, done, combinations)
    ensures CombinationsExactly(groups, done + {k}, combinations + [entry])
  {
    assert (combinations + [entry])[..|combinations|] == combinations;
    assert (set k' | k' in done + {k} && k' in groups && |groups[k']| > 1)
        == (set k' | k' in done && k' in groups && |groups[k']| > 1) + {k};
  }

  lemma SingletonStep(groups: map<Key, seq<Resume>>, done: set<Key>, toDelete: seq<Resume>, combinations: seq<Combination>, k: Key)
    requires WellGrouped(groups) && k in groups && |groups[k]| <= 1
    requires MarkedExactly(groups, done, toDelete)
    requires CombinationsExactly(groups, done, combinations)
    ensures MarkedExactly(groups, done + {k}, toDelete)
    ensures CombinationsExactly(groups, done + {k}, combinations)
  {
    var g := groups[k];
    assert Newest(g) == g[0];
    forall r | r in g ensures r == g[0] { }
    assert (set k' | k' in done + {k} && k' in groups && |groups[k']| > 1)
        == (set k' | k' in done && k' in groups && |groups[k']| > 1);
  }

  /** One iteration of the cleanup's second loop, for the group of `k`:
      when it has two or more records, mark all but the newest for
      deletion, add their number to the total, and record the pair, cut
      back out of its string key, with that number. */
  method TakeGroup(groups: map<Key, seq<Resume>>, ghost done: set<Key>, k: Key,
                   toDelete: seq<Resume>, combinations: seq<Combination>, total: nat, ghost scanned: seq<Resume>)
    returns (toDelete': seq<Resume>, combinations': seq<Combination>, total': nat, ghost scanned': seq<Resume>)
    requires WellGrouped(groups) && k in groups && k !in done
    requires total == |toDelete| && |scanned| == |toDelete| + |done|
    requires ScannedExactly(groups, done, scanned)
    requires MarkedExactly(groups, done, toDelete)
    requires CombinationsExactly(groups, done, combinations)
    ensures total' == |toDelete'| && |scanned'| == |toDelete'| + |done + {k}|
    ensures ScannedExactly(groups, done + {k}, scanned')
    ensures MarkedExactly(groups, done + {k}, toDelete')
    ensures CombinationsExactly(groups, done + {k}, combinations')
  {
    var group := groups[k];
    if |group| > 1 {
      var duplicates := Duplicates(group);
      MarkStep(groups, done, toDelete, k, duplicates);
      toDelete' := toDelete + duplicates;
      // The pair is read back from its string key.
      var parts := JavaSplit(KeyString(k.0, k.1), '-');
      KeyRoundTrip(k.0, k.1);
      var jobId: LongId := ParseLong(parts[0]).value;
      var ownerId: LongId := ParseLong(parts[1]).value;
      var entry := Combination(jobId, ownerId, |duplicates|);
      CombinationStep(groups, done, combinations, k, entry);
      combinations' := combinations + [entry];
      total' := total + |duplicates|;
    } else {
      SingletonStep(groups, done, toDelete, combinations, k);
      toDelete', combinations', total' := toDelete, combinations, total;
    }
    ScanStep(groups, done, scanned, k);
    scanned' := scanned + group;
  }

  /** The second loop of the cleanup, over the groups in an order left
      open, as a HashMap's iteration order is. */
  method CollectDuplicates(groups: map<Key, seq<Resume>>)
    returns (toDelete: seq<Resume>, combinations: seq<Combination>, totalDuplicatesRemoved: nat, ghost scanned: seq<Resume>)
    requires WellGrouped(groups)
    ensures MarkedExactly(groups, groups.Keys, toDelete)
    ensures totalDuplicatesRemoved == |toDelete|
    ensures |scanned| == |toDelete| + |groups|
    ensures ScannedExactly(groups, groups.Keys, scanned)
    ensures CombinationsExactly(groups, groups.Keys, combinations)
  {
    var remaining := groups.Keys;
    ghost var done: set<Key> := {};
    scanned := [];
    toDelete := [];
    combinations := [];
    totalDuplicatesRemoved := 0;
    while remaining != {}
      invariant done !! remaining && done + remaining == groups.Keys
      invariant totalDuplicatesRemoved == |toDelete|
      invariant |scanned| == |toDelete| + |done|
      invariant ScannedExactly(groups, done, scanned)
      invariant MarkedExactly(groups, done, toDelete)
      invariant CombinationsExactly(groups, done, combinations)
      decreases remaining
    {
      var k :| k in remaining;
      toDelete, combinations, totalDuplicatesRemoved, scanned :=
        TakeGroup(groups, done, k, toDelete, combinations, totalDuplicatesRemoved, scanned);
      done := done + {k};
      remaining := remaining - {k};
    }
  }

  /** The statistics of a cleanup of `all`: every record counted as
      processed; removed = records minus distinct pairs (the sum over the
      groups of their size minus one); one combination per pair with two or
      more records, carrying that size minus one. */
  ghost predicate ReportDescribes(all: seq<Resume>, report: CleanupReport)
  {
    && report.totalResumesProcessed == |all|
    && report.totalDuplicatesRemoved == |all| - |Keys(all)|
    && report.uniqueCombinationsWithDuplicates == |report.duplicateCombinations| == |DupKeys(all)|
    && ComboKeys(report.duplicateCombinations) == DupKeys(all)
    && forall c :: c in report.duplicateCombinations ==> c.count == |Group(all, ComboKey(c))| - 1
  }

  /** The grouping covers exactly the pairs of `all` and is well formed. */
  lemma GroupsOfFacts(all: seq<Resume>, groups: map<Key, seq<Resume>>)
    requires DistinctIds(all) && GroupsOf(all, groups)
    ensures groups.Keys == Keys(all)
    ensures WellGrouped(groups)
    ensures (set k | k in groups.Keys && k in groups && |groups[k]| > 1) == DupKeys(all)
  {
    forall k ensures k in groups <==> k in Keys(all) {
      GroupNonEmpty(all, k);
    }
    forall k | k in groups ensures DistinctIds(groups[k]) {
      SelectDistinct(all, r => KeyOf(r) == k, IdOf);
    }
  }

  /** Walking every group visits every record once. */
  lemma ScannedAll(all: seq<Resume>, groups: map<Key, seq<Resume>>, scanned: seq<Resume>)
    requires GroupsOf(all, groups) && groups.Keys == Keys(all)
    requires ScannedExactly(groups, groups.Keys, scanned)
    ensures |scanned| == |all|
  {
    assert multiset(scanned) == multiset(all) by {
      forall r ensures multiset(scanned)[r] == multiset(all)[r] {
        if KeyOf(r) !in groups {
          assert r !in all;
        }
      }
    }
    assert |scanned| == |multiset(scanned)| == |multiset(all)| == |all|;
  }

  /** Marking the non-newest records of every group marks the superseded ones. */
  lemma MarkedAreSuperseded(all: seq<Resume>, groups: map<Key, seq<Resume>>, toDelete: seq<Resume>)
    requires GroupsOf(all, groups)
    requires MarkedExactly(groups, groups.Keys, toDelete)
    ensures forall r :: r in toDelete <==> r in all && Superseded(all, r)
  {
    forall r ensures r in toDelete <==> r in all && Superseded(all, r) {
      if r in all {
        SupersededInGroup(all, r);
      }
    }
  }

  /** The part of `cleanupDuplicateResumes` that reads the records and
      decides what to delete and what to report: group `all` by pair, then
      collect the duplicates of every group. */
  method PlanCleanup(all: seq<Resume>) returns (toDelete: seq<Resume>, report: CleanupReport)
    requires DistinctIds(all)
    ensures forall r :: r in toDelete <==> r in all && Superseded(all, r)
    ensures report.totalDuplicatesRemoved == |toDelete|
    ensures ReportDescribes(all, report)
  {
    var groups := GroupByPair(all);
    GroupsOfFacts(all, groups);
    var combinations, total;
    ghost var scanned;
    toDelete, combinations, total, scanned := CollectDuplicates(groups);
    ScannedAll(all, groups, scanned);
    MarkedAreSuperseded(all, groups, toDelete);
    report := CleanupReport(|all|, total, |combinations|, combinations);
  }

  // ----- Lookup by hash -----

  /** The position of the first record with the given hash, if any. */
  function FindHash(s: seq<Resume>, hash: string): (i: Option<nat>)
    ensures i.Some? ==> i.value < |s| && s[i.value].hash == hash
    ensures i.Some? ==> forall j :: 0 <= j < i.value ==> s[j].hash != hash
    ensures i.None? <==> forall j :: 0 <= j < |s| ==> s[j].hash != hash
    decreases |s|
  {
    if s == [] then None
    else if s[0].hash == hash then Some(0)
    else
      var rest := FindHash(s[1..], hash);
      if rest.Some? then Some(rest.value + 1) else None
  }

  /** With unique hashes, the lookup finds the one record of a hash. */
  lemma FindHashUnique(s: seq<Resume>, i: nat)
    requires UniqueHashes(s) && i < |s|
    ensures FindHash(s, s[i].hash) == Some(i)
  {
    var j := FindHash(s, s[i].hash);
    assert HashOf(s[j.value]) == HashOf(s[i]);
  }

  /** `deleteAll`: removes the given records from the store. */
  function DeleteAll(s: seq<Resume>, dels: seq<Resume>): (r: seq<Resume>)
    ensures forall x :: x in r <==> x in s && x !in dels
  {
    Select(s, x => x !in dels)
  }

  /** Deleting nothing that is stored leaves the store as it is. */
  lemma {:induction false} DeleteNothing(s: seq<Resume>, dels: seq<Resume>)
    requires forall x :: x in s ==> x !in dels
    ensures DeleteAll(s, dels) == s
    decreases |s|
  {
    if s != [] {
      var init := s[..|s| - 1];
      DeleteNothing(init, dels);
      assert s == init + [s[|s| - 1]];
    }
  }

  /** The state invariant of the resume repository: distinct ids below the
      next id to hand out, unique hashes, and references to existing jobs
      and users. */
  ghost predicate StoreValid(s: seq<Resume>, nextId: nat, jobs: set<LongId>, users: set<LongId>)
  {
    && DistinctIds(s)
    && UniqueHashes(s)
    && (forall r :: r in s ==> r.id < nextId && r.jobId in jobs && r.ownerId in users)
  }

  /** Overwriting one record's results keeps the store valid and the record
      findable under its hash. */
  lemma ReplaceResultsValid(s: seq<Resume>, i: nat, json: Option<string>, nextId: nat, jobs: set<LongId>, users: set<LongId>)
    requires StoreValid(s, nextId, jobs, users) && i < |s|
    ensures StoreValid(s[i := s[i].(results := json)], nextId, jobs, users)
    ensures FindHash(s[i := s[i].(results := json)], s[i].hash) == Some(i)
  {
    var t := s[i := s[i].(results := json)];
    assert forall j :: 0 <= j < |t| ==> IdOf(t[j]) == IdOf(s[j]) && HashOf(t[j]) == HashOf(s[j]);
    forall r | r in t ensures r.id < nextId && r.jobId in jobs && r.ownerId in users {
      var j :| 0 <= j < |t| && t[j] == r;
      assert s[j] in s;
    }
    FindHashUnique(t, i);
  }

  /** Appending a record with a new hash and the next id keeps the store
      valid and makes the record findable under its hash. */
  lemma AppendValid(s: seq<Resume>, r: Resume, nextId: nat, jobs: set<LongId>, users: set<LongId>)
    requires StoreValid(s, nextId, jobs, users)
    requires FindHash(s, r.hash).None? && r.id == nextId && r.jobId in jobs && r.ownerId in users
    ensures StoreValid(s + [r], nextId + 1, jobs, users)
    ensures FindHash(s + [r], r.hash) == Some(|s|)
  {
    var t := s + [r];
    forall i, j | 0 <= i < |t| && 0 <= j < |t| && IdOf(t[i]) == IdOf(t[j]) ensures i == j {
      if i < |s| { assert t[i] in s; }
      if j < |s| { assert t[j] in s; }
    }
    forall i, j | 0 <= i < |t| && 0 <= j < |t| && HashOf(t[i]) == HashOf(t[j]) ensures i == j {
    }
    FindHashUnique(t, |s|);
  }

  /** `rem` is what a cleanup of `all` leaves: exactly the records without a
      newer sibling, at most one per pair, every pair still present, so as
      many records as pairs. */
  ghost predicate CleanedFrom(all: seq<Resume>, rem: seq<Resume>)
  {
    && (forall r :: r in rem <==> r in all && !Superseded(all, r))
    && Reconciled(rem)
    && Keys(rem) == Keys(all)
    && |rem| == |Keys(all)|
  }

  /** What deleting the cleanup's marked records leaves: a valid,
      reconciled store over the same pairs, one record per pair. */
  lemma DeletionOutcome(all: seq<Resume>, toDelete: seq<Resume>, nextId: nat, jobs: set<LongId>, users: set<LongId>)
    requires StoreValid(all, nextId, jobs, users)
    requires forall r :: r in toDelete <==> r in all && Superseded(all, r)
    ensures StoreValid(DeleteAll(all, toDelete), nextId, jobs, users)
    ensures CleanedFrom(all, DeleteAll(all, toDelete))
    ensures toDelete == [] ==> DeleteAll(all, toDelete) == all
  {
    var rem := DeleteAll(all, toDelete);
    SelectDistinct(all, x => x !in toDelete, IdOf);
    SelectDistinct(all, x => x !in toDelete, HashOf);
    CleanupSurvivors(all, rem);
    if toDelete == [] {
      DeleteNothing(all, toDelete);
    }
  }

  /** The cleanup on the repository's contents: plans the deletions, then
      applies them in one bulk delete, which is skipped when nothing is
      marked. */
  method CleanupStore(all: seq<Resume>, ghost nextId: nat, ghost jobs: set<LongId>, ghost users: set<LongId>)
    returns (rem: seq<Resume>, report: CleanupReport)
    requires StoreValid(all, nextId, jobs, users)
    ensures StoreValid(rem, nextId, jobs, users)
    ensures CleanedFrom(all, rem)
    ensures ReportDescribes(all, report)
    ensures Reconciled(all) ==>
      rem == all && report.totalDuplicatesRemoved == 0 && report.uniqueCombinationsWithDuplicates == 0
  {
    var toDelete;
    toDelete, report := PlanCleanup(all);
    DeletionOutcome(all, toDelete, nextId, jobs, users);
    if Reconciled(all) {
      ReconciledFacts(all);
    }
    if toDelete != [] {
      rem := DeleteAll(all, toDelete);
    } else {
      rem := all;
    }
  }

  // ----- The service -----

  /** ResumeDataService over an in-memory resume repository. The job and
      user repositories are the sets of ids they can resolve; the result
      translator and the JSON decoder are functions this model does not
      look into. */
  class ResumeDataService {
    /** The resume repository's records, in `findAll` order. */
    var resumes: seq<Resume>
    /** The identity the repository gives the next new record. */
    var nextId: nat
    /** Ids `jobRepository.findById` resolves. */
    var jobs: set<LongId>
    /** Ids `userRepository.findById` resolves. */
    var users: set<LongId>
    /** `ResumeResultParser.pythonToJson`. */
    const pythonToJson: string -> string
    /** Gson's `fromJson` into a nested map. */
    const gsonFromJson: string -> GsonOutcome

    /** Ids are distinct and below `nextId`, hashes are unique (the
        repository's lookup by hash yields at most one record) and every
        record references a job and a user that exist. */
    ghost predicate Valid()
      reads this
    {
      StoreValid(resumes, nextId, jobs, users)
    }

    constructor (jobs: set<LongId>, users: set<LongId>, pythonToJson: string -> string, gsonFromJson: string -> GsonOutcome)
      ensures Valid()
      ensures resumes == [] && this.jobs == jobs && this.users == users
      ensures this.pythonToJson == pythonToJson && this.gsonFromJson == gsonFromJson
    {
      resumes := [];
      nextId := 1;
      this.jobs := jobs;
      this.users := users;
      this.pythonToJson := pythonToJson;
      this.gsonFromJson := gsonFromJson;
    }

    /** The results to store for a raw payload: translated when it is
        present and non-empty, absent otherwise. */
    function TranslatedResults(rawResults: Option<string>): (json: Option<string>)
      ensures json.Some? <==> rawResults.Some? && rawResults.value != []
      ensures json.Some? ==> json.value == pythonToJson(rawResults.value)
    {
      if rawResults.Some? && rawResults.value != [] then Some(pythonToJson(rawResults.value)) else None
    }

    /** `getResumeByHash`: the record with that hash, if there is one. */
    function GetResumeByHash(resumeHash: string): (r: Option<Resume>)
      reads this
      ensures r.Some? ==> r.value in resumes && r.value.hash == resumeHash
      ensures r.None? <==> forall x :: x in resumes ==> x.hash != resumeHash
    {
      var i := FindHash(resumes, resumeHash);
      if i.Some? then Some(resumes[i.value]) else None
    }

    /** `getResumesByJob`: the records of one job, in repository order. */
    function GetResumesByJob(jobId: LongId): (rs: seq<Resume>)
      reads this
      ensures forall r :: r in rs <==> r in resumes && r.jobId == jobId
      ensures forall r {:trigger multiset(rs)[r]} ::
        multiset(rs)[r] == if r.jobId == jobId then multiset(resumes)[r] else 0
    {
      Select(resumes, (r: Resume) => r.jobId == jobId)
    }

    /** `getResumesByUser`: the records owned by one user. */
    function GetResumesByUser(userId: LongId): (rs: seq<Resume>)
      reads this
      ensures forall r :: r in rs <==> r in resumes && r.ownerId == userId
      ensures forall r {:trigger multiset(rs)[r]} ::
        multiset(rs)[r] == if r.ownerId == userId then multiset(resumes)[r] else 0
    {
      Select(resumes, (r: Resume) => r.ownerId == userId)
    }

    /** `getResumesByJobAndUser`: the records of one (job, owner) pair. */
    function GetResumesByJobAndUser(jobId: LongId, userId: LongId): (rs: seq<Resume>)
      reads this
      ensures forall r :: r in rs <==> r in resumes && r.jobId == jobId && r.ownerId == userId
      ensures forall r {:trigger multiset(rs)[r]} ::
        multiset(rs)[r] == if KeyOf(r) == (jobId, userId) then multiset(resumes)[r] else 0
    {
      Group(resumes, (jobId, userId))
    }

    /** `getResumeByJobAndUser`: the record of one (job, owner) pair. The
        query yields nothing for an unused pair and fails when the pair has
        several records. */
    function GetResumeByJobAndUser(jobId: LongId, userId: LongId): (r: Result<Option<Resume>, LookupError>)
      reads this
      ensures r == Ok(None) <==> forall x :: x in resumes ==> KeyOf(x) != (jobId, userId)
      ensures r.Ok? && r.value.Some? ==> r.value.value in resumes && KeyOf(r.value.value) == (jobId, userId)
      ensures r.Err? <==> |GetResumesByJobAndUser(jobId, userId)| > 1
    {
      var g := GetResumesByJobAndUser(jobId, userId);
      if |g| == 0 then
        Ok(None)
      else
        assert g[0] in g;
        if |g| == 1 then Ok(Some(g[0])) else Err(NonUniqueResult(|g|))
    }

    /** Once the store is reconciled (as a cleanup leaves it) the
        single-record query never fails. */
    lemma ReconciledLookupSucceeds(jobId: LongId, userId: LongId)
      requires Reconciled(resumes)
      ensures GetResumeByJobAndUser(jobId, userId).Ok?
    {
      ReconciledGroupSmall(resumes, (jobId, userId));
    }

    /** `getAllResumes`: the full scan. */
    function GetAllResumes(): seq<Resume>
      reads this
    {
      resumes
    }

    /** `parseResumeResults`: decodes a record's stored results and never
        throws. No stored results, empty results and malformed results all
        give the empty map; the text Gson decodes to null gives null. */
    function ParseResumeResults(resume: Resume): (m: Option<ResultMap>)
      ensures resume.results.None? || resume.results.value == [] ==> m == Some(map[])
      ensures resume.results.Some? && gsonFromJson(resume.results.value).Malformed? ==> m == Some(map[])
      ensures m.None? ==> resume.results.Some? && gsonFromJson(resume.results.value).JsonNull?
      ensures m.Some? && m.value != map[] ==> resume.results.Some? && gsonFromJson(resume.results.value) == Parsed(m.value)
      ensures resume.results.Some? && resume.results.value != [] && gsonFromJson(resume.results.value).Parsed? ==>
        m == Some(gsonFromJson(resume.results.value).decoded)
      ensures resume.results.Some? && resume.results.value != [] && gsonFromJson(resume.results.value).JsonNull? ==>
        m.None?
    {
      if resume.results.None? || resume.results.value == [] then Some(map[])
      else match gsonFromJson(resume.results.value)
        case Parsed(decoded) => Some(decoded)
        case JsonNull => None
        case Malformed => Some(map[])
    }

    /** `saveResumeData`: an upsert keyed by the resume hash. An existing
        record only has its results overwritten, and only when a non-empty
        payload is given (the job and user arguments are then ignored). A
        new hash needs an existing job, then an existing user; it adds one
        record with a fresh id. */
    method SaveResumeData(resumeHash: string, rawResults: Option<string>, jobId: LongId, userId: LongId)
      returns (res: Result<Resume, SaveError>)
      requires Valid()
      modifies this
      ensures Valid()
      ensures jobs == old(jobs) && users == old(users)
      // The hash is known: the store changes at most in that record's results.
      ensures old(GetResumeByHash(resumeHash)).Some? ==>
        var existing := old(GetResumeByHash(resumeHash)).value;
        var json := TranslatedResults(rawResults);
        && nextId == old(nextId)
        && (json.None? ==> res == Ok(existing) && resumes == old(resumes))
        && (json.Some? ==>
              && res == Ok(existing.(results := json))
              && |resumes| == |old(resumes)|
              && forall i :: 0 <= i < |resumes| ==>
                   resumes[i] == if old(resumes)[i].hash == resumeHash then res.value else old(resumes)[i])
      // The hash is new and the job does not exist.
      ensures old(GetResumeByHash(resumeHash)).None? && jobId !in jobs ==>
        res == Err(JobNotFound(jobId)) && resumes == old(resumes) && nextId == old(nextId)
      // The hash is new, the job exists, the user does not.
      ensures old(GetResumeByHash(resumeHash)).None? && jobId in jobs && userId !in users ==>
        res == Err(UserNotFound(userId)) && resumes == old(resumes) && nextId == old(nextId)
      // The hash is new and both references resolve: one record is added.
      ensures old(GetResumeByHash(resumeHash)).None? && jobId in jobs && userId in users ==>
        && res == Ok(Resume(old(nextId), resumeHash, TranslatedResults(rawResults), jobId, userId))
        && resumes == old(resumes) + [res.value]
        && nextId == old(nextId) + 1
      // Resubmitting what is already stored changes nothing.
      ensures old(GetResumeByHash(resumeHash)).Some? &&
              (TranslatedResults(rawResults).None? ||
               old(GetResumeByHash(resumeHash)).value.results == TranslatedResults(rawResults)) ==>
        resumes == old(resumes) && nextId == old(nextId)
      // Whatever was returned is what a lookup by the hash now finds.
      ensures res.Ok? ==> GetResumeByHash(resumeHash) == Some(res.value)
    {
      var json := TranslatedResults(rawResults);
      var found := FindHash(resumes, resumeHash);
      if found.Some? {
        var i := found.value;
        if json.Some? {
          var updated := resumes[i].(results := json);
          ReplaceResultsValid(resumes, i, json, nextId, jobs, users);
          resumes := resumes[i := updated];
          res := Ok(updated);
        } else {
          FindHashUnique(resumes, i);
          res := Ok(resumes[i]);
        }
      } else if jobId !in jobs {
        res := Err(JobNotFound(jobId));
      } else if userId !in users {
        res := Err(UserNotFound(userId));
      } else {
        var created := Resume(nextId, resumeHash, json, jobId, userId);
        AppendValid(resumes, created, nextId, jobs, users);
        resumes := resumes + [created];
        nextId := nextId + 1;
        res := Ok(created);
      }
    }

    /** `cleanupDuplicateResumes`: keeps, for every (job, owner) pair, only
        the record with the highest id and reports what it removed. The bulk
        delete is skipped when there is nothing to delete. */
    method CleanupDuplicateResumes() returns (report: CleanupReport)
      requires Valid()
      modifies this`resumes
      ensures Valid()
      ensures CleanedFrom(old(resumes), resumes)
      ensures ReportDescribes(old(resumes), report)
      ensures old(Reconciled(resumes)) ==>
        resumes == old(resumes) && report.totalDuplicatesRemoved == 0 && report.uniqueCombinationsWithDuplicates == 0
    {
      var rem;
      rem, report := CleanupStore(GetAllResumes(), nextId, jobs, users);
      resumes := rem;
    }
  }
}
