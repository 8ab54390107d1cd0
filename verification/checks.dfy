/** The check runner (`RunChecks` in `checker.go`): which checks run on which items, the severity filter, the
    stable sort and the summary; and the re-runs of the check command (`cmd/check.go`). */
module CheckRunner {
  import opened CertTypes

  // ---------------------------------------------------------------------------------------------
  // Issues and checks
  // ---------------------------------------------------------------------------------------------

  /** A severity is a string in the program; anything but the three known ones has rank -1. */
  datatype Severity = Info | Warning | Critical | Other(text: string)

  const NO_MINIMUM := Other("")

  function Rank(s: Severity): int {
    match s
    case Info => 0
    case Warning => 1
    case Critical => 2
    case Other(_) => -1
  }

  datatype Issue = Issue(severity: Severity, checkID: string, filePath: string, ref: ItemRef, message: string)

  datatype ItemKind = Leaf | CA | KeyItem | CSRItem | Unclassified

  function ItemKindOf(item: Item): ItemKind {
    match item.kind
    case PrivateKey => KeyItem
    case CSR => CSRItem
    case Certificate => if item.certificate.Some? && item.certificate.value.isCA then CA else Leaf
    case PublicKey => Unclassified
  }

  /** A registered check. `run` may look at everything but the minimum severity. */
  datatype Check = Check(id: string, category: string, appliesTo: seq<ItemKind>,
                         run: (Container, Item, ItemRef) -> seq<Issue>)

  datatype Options = Options(min: Severity, categories: seq<string>, disabled: seq<string>,
                             revocationEnabled: bool, revocationResults: map<ItemRef, string>)

  datatype RevocationRecord = RevocationRecord(filePath: string, itemIndex: int, subject: string, result: string)

  datatype Summary = Summary(critical: nat, warning: nat, info: nat, filesWithIssues: nat)

  datatype CheckResult =
    CheckResult(issues: seq<Issue>, filesScanned: nat, summary: Summary, revocations: seq<RevocationRecord>)

  predicate IsEnabled(def: Check, opts: Options) {
    def.id !in opts.disabled && (opts.categories == [] || def.category in opts.categories)
  }

  function Enabled(defs: seq<Check>, opts: Options): seq<Check> {
    if defs == [] then []
    else
      var n := |defs| - 1;
      if IsEnabled(defs[n], opts) then Enabled(defs[..n], opts) + [defs[n]] else Enabled(defs[..n], opts)
  }

  predicate Passes(issue: Issue, min: Severity) {
    min == NO_MINIMUM || Rank(issue.severity) >= Rank(min)
  }

  /** The issues of at least a severity, in order. */
  function Keep(issues: seq<Issue>, min: Severity): seq<Issue> {
    if issues == [] then []
    else
      var n := |issues| - 1;
      if Passes(issues[n], min) then Keep(issues[..n], min) + [issues[n]] else Keep(issues[..n], min)
  }

  lemma {:induction false} KeepAppend(a: seq<Issue>, b: seq<Issue>, min: Severity)
    ensures Keep(a + b, min) == Keep(a, min) + Keep(b, min)
  {
    if b == [] {
      assert a + b == a;
    } else {
      var n := |b| - 1;
      assert (a + b)[..|a| + n] == a + b[..n];
      KeepAppend(a, b[..n], min);
    }
  }

  // ---------------------------------------------------------------------------------------------
  // What the checks find
  // ---------------------------------------------------------------------------------------------

  /** All that the checks in `defs` written for this kind of item report on it. */
  function ItemIssues(defs: seq<Check>, c: Container, item: Item, ref: ItemRef): seq<Issue> {
    if defs == [] then []
    else
      var n := |defs| - 1;
      var before := ItemIssues(defs[..n], c, item, ref);
      if ItemKindOf(item) in defs[n].appliesTo then before + defs[n].run(c, item, ref) else before
  }

  function Ref(c: Container, ci: nat, ii: nat): ItemRef
    requires ii < |c.items|
  {
    ItemRef(ci, ii, c.filePath, c.items[ii].alias)
  }

  function ContainerIssues(defs: seq<Check>, c: Container, ci: nat, n: nat): seq<Issue>
    requires n <= |c.items|
  {
    if n == 0 then []
    else ContainerIssues(defs, c, ci, n - 1) + ItemIssues(defs, c, c.items[n - 1], Ref(c, ci, n - 1))
  }

  /** The issues of the first `n` containers; relations-only containers are not checked. */
  function StoreIssues(defs: seq<Check>, store: Store, n: nat): seq<Issue>
    requires n <= |store|
  {
    if n == 0 then []
    else
      var c := store[n - 1];
      var before := StoreIssues(defs, store, n - 1);
      if c.relationsOnly then before else before + ContainerIssues(defs, c, n - 1, |c.items|)
  }

  function Scanned(store: Store, n: nat): nat
    requires n <= |store|
  {
    if n == 0 then 0 else if store[n - 1].relationsOnly then Scanned(store, n - 1) else Scanned(store, n - 1) + 1
  }

  /** The files of the first `n` containers with an issue of at least the minimum severity. */
  function FilesWithIssues(defs: seq<Check>, store: Store, min: Severity, n: nat): set<string>
    requires n <= |store|
  {
    if n == 0 then {}
    else
      var c := store[n - 1];
      var before := FilesWithIssues(defs, store, min, n - 1);
      if c.relationsOnly || Keep(ContainerIssues(defs, c, n - 1, |c.items|), min) == [] then before
      else before + {c.filePath}
  }

  function ContainerRevocations(c: Container, ci: nat, opts: Options, n: nat): seq<RevocationRecord>
    requires n <= |c.items|
  {
    if n == 0 then []
    else
      var item, ref := c.items[n - 1], Ref(c, ci, n - 1);
      var before := ContainerRevocations(c, ci, opts, n - 1);
      if opts.revocationEnabled && item.certificate.Some? && ref in opts.revocationResults
      then before + [RevocationRecord(c.filePath, n - 1, item.certificate.value.subject, opts.revocationResults[ref])]
      else before
  }

  function Revocations(store: Store, opts: Options, n: nat): seq<RevocationRecord>
    requires n <= |store|
  {
    if n == 0 then []
    else
      var c := store[n - 1];
      var before := Revocations(store, opts, n - 1);
      if c.relationsOnly then before else before + ContainerRevocations(c, n - 1, opts, |c.items|)
  }

  // ---------------------------------------------------------------------------------------------
  // The stable sort
  // ---------------------------------------------------------------------------------------------

  function OfRank(issues: seq<Issue>, rank: int): seq<Issue> {
    if issues == [] then []
    else
      var n := |issues| - 1;
      if Rank(issues[n].severity) == rank then OfRank(issues[..n], rank) + [issues[n]] else OfRank(issues[..n], rank)
  }

  predicate Descending(issues: seq<Issue>) {
    forall i, j :: 0 <= i < j < |issues| ==> Rank(issues[i].severity) >= Rank(issues[j].severity)
  }

  /** `out` is a stable sort of `issues`: most severe first, and within each rank the original order. */
  ghost predicate IsStableSort(issues: seq<Issue>, out: seq<Issue>) {
    Descending(out) && forall r :: OfRank(out, r) == OfRank(issues, r)
  }

  /** `sort.SliceStable` by descending rank. */
  function SortByRank(issues: seq<Issue>): seq<Issue> {
    OfRank(issues, 2) + OfRank(issues, 1) + OfRank(issues, 0) + OfRank(issues, -1)
  }

  lemma {:induction false} OfRankAppend(a: seq<Issue>, b: seq<Issue>, rank: int)
    ensures OfRank(a + b, rank) == OfRank(a, rank) + OfRank(b, rank)
  {
    if b == [] {
      assert a + b == a;
    } else {
      var n := |b| - 1;
      assert (a + b)[..|a| + n] == a + b[..n];
      OfRankAppend(a, b[..n], rank);
    }
  }

  lemma {:induction false} OfRankHasRank(issues: seq<Issue>, rank: int)
    ensures forall i :: 0 <= i < |OfRank(issues, rank)| ==> Rank(OfRank(issues, rank)[i].severity) == rank
  {
    if issues != [] {
      OfRankHasRank(issues[..|issues| - 1], rank);
    }
  }

  lemma {:induction false} OfOneRank(issues: seq<Issue>, rank: int, other: int)
    requires forall i :: 0 <= i < |issues| ==> Rank(issues[i].severity) == rank
    ensures OfRank(issues, other) == if other == rank then issues else []
  {
    if issues != [] {
      OfOneRank(issues[..|issues| - 1], rank, other);
    }
  }

  lemma OfRankOfRank(issues: seq<Issue>, rank: int, other: int)
    ensures OfRank(OfRank(issues, rank), other) == if other == rank then OfRank(issues, rank) else []
  {
    OfRankHasRank(issues, rank);
    OfOneRank(OfRank(issues, rank), rank, other);
  }

  lemma {:induction false} NoOtherRanks(issues: seq<Issue>, rank: int)
    requires rank < -1 || rank > 2
    ensures OfRank(issues, rank) == []
  {
    if issues != [] {
      NoOtherRanks(issues[..|issues| - 1], rank);
    }
  }

  lemma SortKeepsRanks(issues: seq<Issue>, rank: int)
    ensures OfRank(SortByRank(issues), rank) == OfRank(issues, rank)
  {
    var a, b, c, d := OfRank(issues, 2), OfRank(issues, 1), OfRank(issues, 0), OfRank(issues, -1);
    OfRankAppend(a + b + c, d, rank);
    OfRankAppend(a + b, c, rank);
    OfRankAppend(a, b, rank);
    OfRankOfRank(issues, 2, rank);
    OfRankOfRank(issues, 1, rank);
    OfRankOfRank(issues, 0, rank);
    OfRankOfRank(issues, -1, rank);
    if rank < -1 || rank > 2 {
      NoOtherRanks(issues, rank);
    }
  }

  lemma SortDescends(issues: seq<Issue>)
    ensures Descending(SortByRank(issues))
  {
    OfRankHasRank(issues, 2);
    OfRankHasRank(issues, 1);
    OfRankHasRank(issues, 0);
    OfRankHasRank(issues, -1);
  }

  lemma SortIsStable(issues: seq<Issue>)
    ensures IsStableSort(issues, SortByRank(issues))
  {
    SortDescends(issues);
    forall r ensures OfRank(SortByRank(issues), r) == OfRank(issues, r) {
      SortKeepsRanks(issues, r);
    }
  }

  /** A descending list is its own sort. */
  lemma {:induction false} DescendingIsSorted(issues: seq<Issue>)
    requires Descending(issues)
    ensures SortByRank(issues) == issues
  {
    if issues != [] {
      var n := |issues| - 1;
      DescendingIsSorted(issues[..n]);
      NoneBelow(issues[..n], Rank(issues[n].severity));
      SortAtEnd(issues);
      assert issues == issues[..n] + [issues[n]];
    }
  }

  lemma SortAtEnd(issues: seq<Issue>)
    requires issues != [] && EmptyBelow(issues[..|issues| - 1], Rank(issues[|issues| - 1].severity))
    ensures SortByRank(issues) == SortByRank(issues[..|issues| - 1]) + [issues[|issues| - 1]]
  {
    var front, last := issues[..|issues| - 1], issues[|issues| - 1];
    var a, b, c, d := OfRank(front, 2), OfRank(front, 1), OfRank(front, 0), OfRank(front, -1);
    match last.severity
    case Critical => assert a + [last] + [] + [] + [] == a + [] + [] + [] + [last];
    case Warning => assert a + (b + [last]) + [] + [] == a + b + [] + [] + [last];
    case Info => assert a + b + (c + [last]) + [] == a + b + c + [] + [last];
    case Other(_) => assert a + b + c + (d + [last]) == a + b + c + d + [last];
  }

  ghost predicate EmptyBelow(issues: seq<Issue>, rank: int) {
    forall r :: r < rank ==> OfRank(issues, r) == []
  }

  lemma {:induction false} NoneBelow(issues: seq<Issue>, rank: int)
    requires forall i :: 0 <= i < |issues| ==> Rank(issues[i].severity) >= rank
    ensures EmptyBelow(issues, rank)
  {
    if issues != [] {
      NoneBelow(issues[..|issues| - 1], rank);
    }
  }

  /** There is only one stable sort, so modelling the library's by `SortByRank` loses nothing. */
  lemma StableSortIsUnique(issues: seq<Issue>, out: seq<Issue>)
    requires IsStableSort(issues, out)
    ensures out == SortByRank(issues)
  {
    DescendingIsSorted(out);
    assert OfRank(out, 2) == OfRank(issues, 2) && OfRank(out, 1) == OfRank(issues, 1);
    assert OfRank(out, 0) == OfRank(issues, 0) && OfRank(out, -1) == OfRank(issues, -1);
  }

  // ---------------------------------------------------------------------------------------------
  // The sort commutes with the filter
  // ---------------------------------------------------------------------------------------------

  lemma {:induction false} KeepOfRank(issues: seq<Issue>, min: Severity, rank: int)
    ensures Keep(OfRank(issues, rank), min) == OfRank(Keep(issues, min), rank)
  {
    if issues != [] {
      KeepOfRank(issues[..|issues| - 1], min, rank);
    }
  }

  lemma FilterCommutesWithSort(issues: seq<Issue>, min: Severity)
    ensures SortByRank(Keep(issues, min)) == Keep(SortByRank(issues), min)
  {
    var a, b, c, d := OfRank(issues, 2), OfRank(issues, 1), OfRank(issues, 0), OfRank(issues, -1);
    KeepAppend(a + b + c, d, min);
    KeepAppend(a + b, c, min);
    KeepAppend(a, b, min);
    KeepOfRank(issues, min, 2);
    KeepOfRank(issues, min, 1);
    KeepOfRank(issues, min, 0);
    KeepOfRank(issues, min, -1);
  }

  // ---------------------------------------------------------------------------------------------
  // The run
  // ---------------------------------------------------------------------------------------------

  function Count(issues: seq<Issue>, s: Severity): nat {
    if issues == [] then 0
    else
      var n := |issues| - 1;
      if issues[n].severity == s then Count(issues[..n], s) + 1 else Count(issues[..n], s)
  }

  /** Everything found, before the severity filter. */
  function Found(store: Store, defs: seq<Check>, opts: Options): seq<Issue> {
    StoreIssues(Enabled(defs, opts), store, |store|)
  }

  function Run(store: Store, defs: seq<Check>, opts: Options): CheckResult {
    var issues := SortByRank(Keep(Found(store, defs, opts), opts.min));
    var files := FilesWithIssues(Enabled(defs, opts), store, opts.min, |store|);
    CheckResult(issues, Scanned(store, |store|),
                Summary(Count(issues, Critical), Count(issues, Warning), Count(issues, Info), |files|),
                Revocations(store, opts, |store|))
  }

  method EnabledChecks(defs: seq<Check>, opts: Options) returns (enabled: seq<Check>)
    ensures enabled == Enabled(defs, opts)
  {
    var disabledSet := set id | id in opts.disabled;
    var categorySet := set cat | cat in opts.categories;
    assert opts.categories != [] ==> opts.categories[0] in categorySet;
    enabled := [];
    for i := 0 to |defs|
      invariant enabled == Enabled(defs[..i], opts)
    {
      assert defs[..i + 1][..i] == defs[..i];
      if defs[i].id in disabledSet {
        continue;
      }
      if categorySet != {} && defs[i].category !in categorySet {
        continue;
      }
      enabled := enabled + [defs[i]];
    }
    assert defs[..|defs|] == defs;
  }

  /** What appending `found` through the filter makes of the issues and the files seen before. */
  ghost predicate Appended(found: seq<Issue>, min: Severity, path: string,
                           issues0: seq<Issue>, files0: set<string>, issues: seq<Issue>, files: set<string>)
  {
    issues == issues0 + Keep(found, min) && files == if Keep(found, min) == [] then files0 else files0 + {path}
  }

  lemma AppendedTwice(found: seq<Issue>, more: seq<Issue>, min: Severity, path: string,
                      issues0: seq<Issue>, files0: set<string>, issues1: seq<Issue>, files1: set<string>,
                      issues2: seq<Issue>, files2: set<string>)
    requires Appended(found, min, path, issues0, files0, issues1, files1)
    requires Appended(more, min, path, issues1, files1, issues2, files2)
    ensures Appended(found + more, min, path, issues0, files0, issues2, files2)
  {
    KeepAppend(found, more, min);
  }

  /** One list of issues from one check. */
  method AppendPassing(found: seq<Issue>, min: Severity, path: string, issues0: seq<Issue>, files0: set<string>)
    returns (issues: seq<Issue>, files: set<string>)
    ensures Appended(found, min, path, issues0, files0, issues, files)
  {
    issues, files := issues0, files0;
    for i := 0 to |found|
      invariant Appended(found[..i], min, path, issues0, files0, issues, files)
    {
      assert found[..i + 1][..i] == found[..i];
      if min != NO_MINIMUM && Rank(found[i].severity) < Rank(min) {
        continue;
      }
      issues := issues + [found[i]];
      files := files + {path};
    }
    assert found[..|found|] == found;
  }

  lemma ItemStep(defs: seq<Check>, i: nat, c: Container, item: Item, ref: ItemRef)
    requires i < |defs|
    ensures ItemIssues(defs[..i + 1], c, item, ref)
         == if ItemKindOf(item) in defs[i].appliesTo
            then ItemIssues(defs[..i], c, item, ref) + defs[i].run(c, item, ref)
            else ItemIssues(defs[..i], c, item, ref)
  {
    assert defs[..i + 1][..i] == defs[..i];
  }

  /** The checks on one item. */
  method CheckItem(defs: seq<Check>, c: Container, item: Item, ref: ItemRef, min: Severity,
                   issues0: seq<Issue>, files0: set<string>)
    returns (issues: seq<Issue>, files: set<string>)
    ensures Appended(ItemIssues(defs, c, item, ref), min, c.filePath, issues0, files0, issues, files)
  {
    issues, files := issues0, files0;
    var kind := ItemKindOf(item);
    for i := 0 to |defs|
      invariant Appended(ItemIssues(defs[..i], c, item, ref), min, c.filePath, issues0, files0, issues, files)
    {
      ItemStep(defs, i, c, item, ref);
      if kind !in defs[i].appliesTo {
        continue;
      }
      ghost var issues1, files1 := issues, files;
      var more := defs[i].run(c, item, ref);
      issues, files := AppendPassing(more, min, c.filePath, issues, files);
      AppendedTwice(ItemIssues(defs[..i], c, item, ref), more, min, c.filePath,
                    issues0, files0, issues1, files1, issues, files);
    }
    assert defs[..|defs|] == defs;
  }

  /** One container: its items' issues and revocation records. */
  method CheckContainer(defs: seq<Check>, c: Container, ci: nat, opts: Options,
                        issues0: seq<Issue>, files0: set<string>, revocations0: seq<RevocationRecord>)
    returns (issues: seq<Issue>, files: set<string>, revocations: seq<RevocationRecord>)
    ensures Appended(ContainerIssues(defs, c, ci, |c.items|), opts.min, c.filePath, issues0, files0, issues, files)
    ensures revocations == revocations0 + ContainerRevocations(c, ci, opts, |c.items|)
  {
    issues, files, revocations := issues0, files0, revocations0;
    for ii := 0 to |c.items|
      invariant Appended(ContainerIssues(defs, c, ci, ii), opts.min, c.filePath, issues0, files0, issues, files)
      invariant revocations == revocations0 + ContainerRevocations(c, ci, opts, ii)
    {
      var item, ref := c.items[ii], Ref(c, ci, ii);
      ghost var issues1, files1 := issues, files;
      issues, files := CheckItem(defs, c, item, ref, opts.min, issues, files);
      AppendedTwice(ContainerIssues(defs, c, ci, ii), ItemIssues(defs, c, item, ref), opts.min, c.filePath,
                    issues0, files0, issues1, files1, issues, files);
      if opts.revocationEnabled && item.certificate.Some? && ref in opts.revocationResults {
        revocations := revocations
        + [RevocationRecord(c.filePath, ii, item.certificate.value.subject, opts.revocationResults[ref])];
      }
    }
  }

  /** The four counters after a number of issues. */
  predicate Counted(issues: seq<Issue>, critical: nat, warning: nat, info: nat) {
    critical == Count(issues, Critical) && warning == Count(issues, Warning) && info == Count(issues, Info)
  }

  method Summarize(issues: seq<Issue>, filesWithIssues: nat) returns (summary: Summary)
    ensures summary == Summary(Count(issues, Critical), Count(issues, Warning), Count(issues, Info), filesWithIssues)
  {
    var critical: nat, warning: nat, info: nat := 0, 0, 0;
    for i := 0 to |issues|
      invariant Counted(issues[..i], critical, warning, info)
    {
      assert issues[..i + 1][..i] == issues[..i];
      match issues[i].severity
      case Critical => critical := critical + 1;
      case Warning => warning := warning + 1;
      case Info => info := info + 1;
      case Other(_) =>
    }
    assert issues[..|issues|] == issues;
    summary := Summary(critical, warning, info, filesWithIssues);
  }

  method RunChecks(store: Store, defs: seq<Check>, opts: Options) returns (result: CheckResult)
    ensures result == Run(store, defs, opts)
  {
    var enabled := EnabledChecks(defs, opts);
    var issues: seq<Issue>, files: set<string>, revocations: seq<RevocationRecord> := [], {}, [];
    var scanned: nat := 0;
    for ci := 0 to |store|
      invariant scanned == Scanned(store, ci)
      invariant issues == Keep(StoreIssues(enabled, store, ci), opts.min)
      invariant files == FilesWithIssues(enabled, store, opts.min, ci)
      invariant revocations == Revocations(store, opts, ci)
    {
      var c := store[ci];
      if c.relationsOnly {
        continue;
      }
      scanned := scanned + 1;
      KeepAppend(StoreIssues(enabled, store, ci), ContainerIssues(enabled, c, ci, |c.items|), opts.min);
      issues, files, revocations := CheckContainer(enabled, c, ci, opts, issues, files, revocations);
    }
    issues := SortByRank(issues);
    var summary := Summarize(issues, |files|);
    result := CheckResult(issues, scanned, summary, revocations);
  }

  // ---------------------------------------------------------------------------------------------
  // What the runner promises
  // ---------------------------------------------------------------------------------------------

  /** The same run with another minimum severity. */
  function AtLeast(opts: Options, min: Severity): Options {
    opts.(min := min)
  }

  lemma {:induction false} EnabledIgnoresMinimum(defs: seq<Check>, opts: Options, min: Severity)
    ensures Enabled(defs, AtLeast(opts, min)) == Enabled(defs, opts)
  {
    if defs != [] {
      EnabledIgnoresMinimum(defs[..|defs| - 1], opts, min);
    }
  }

  lemma {:induction false} KeepAll(issues: seq<Issue>)
    ensures Keep(issues, NO_MINIMUM) == issues
  {
    if issues != [] {
      KeepAll(issues[..|issues| - 1]);
    }
  }

  /** A run with a minimum severity reports exactly the unfiltered run's issues of that severity or
      above, in the unfiltered run's order. */
  lemma FilteredRunIsTheRunFiltered(store: Store, defs: seq<Check>, opts: Options)
    ensures Run(store, defs, opts).issues == Keep(Run(store, defs, AtLeast(opts, NO_MINIMUM)).issues, opts.min)
  {
    EnabledIgnoresMinimum(defs, opts, NO_MINIMUM);
    KeepAll(Found(store, defs, opts));
    FilterCommutesWithSort(Found(store, defs, opts), opts.min);
  }

  lemma {:induction false} CountKept(issues: seq<Issue>, min: Severity, s: Severity)
    ensures Count(Keep(issues, min), s)
         == if min == NO_MINIMUM || Rank(s) >= Rank(min) then Count(issues, s) else 0
  {
    if issues != [] {
      CountKept(issues[..|issues| - 1], min, s);
    }
  }

  lemma {:induction false} RevocationsIgnoreMinimum(store: Store, opts: Options, min: Severity, n: nat)
    requires n <= |store|
    ensures Revocations(store, AtLeast(opts, min), n) == Revocations(store, opts, n)
  {
    if n > 0 {
      RevocationsIgnoreMinimum(store, opts, min, n - 1);
      ContainerRevocationsIgnoreMinimum(store[n - 1], n - 1, opts, min, |store[n - 1].items|);
    }
  }

  lemma {:induction false} ContainerRevocationsIgnoreMinimum(c: Container, ci: nat, opts: Options, min: Severity,
      n: nat)
    requires n <= |c.items|
    ensures ContainerRevocations(c, ci, AtLeast(opts, min), n) == ContainerRevocations(c, ci, opts, n)
  {
    if n > 0 {
      ContainerRevocationsIgnoreMinimum(c, ci, opts, min, n - 1);
    }
  }

  /** What a minimum severity does to the rest of the result: each count is the unfiltered run's, or 0
      when the filter hides that severity; scanned files and revocation records are untouched. */
  lemma SummariesAgree(store: Store, defs: seq<Check>, opts: Options)
    ensures var run, all := Run(store, defs, opts), Run(store, defs, AtLeast(opts, NO_MINIMUM));
            && run.summary.critical == (if Passes(OfSeverity(Critical), opts.min) then all.summary.critical else 0)
            && run.summary.warning == (if Passes(OfSeverity(Warning), opts.min) then all.summary.warning else 0)
            && run.summary.info == (if Passes(OfSeverity(Info), opts.min) then all.summary.info else 0)
            && run.filesScanned == all.filesScanned && run.revocations == all.revocations
  {
    FilteredRunIsTheRunFiltered(store, defs, opts);
    var all := Run(store, defs, AtLeast(opts, NO_MINIMUM)).issues;
    CountKept(all, opts.min, Critical);
    CountKept(all, opts.min, Warning);
    CountKept(all, opts.min, Info);
    RevocationsIgnoreMinimum(store, opts, NO_MINIMUM, |store|);
  }

  function OfSeverity(s: Severity): Issue {
    Issue(s, "", "", ItemRef(0, 0, "", ""), "")
  }

  // ---------------------------------------------------------------------------------------------
  // The re-runs of the check command
  // ---------------------------------------------------------------------------------------------

  /** `checkExitCode`. */
  function ExitCode(hasScanErrors: bool, summary: Summary, strict: bool, strictSummary: Summary): int {
    var code := if hasScanErrors then 2 else 0;
    var code1 := if summary.critical > 0 && code < 2 then 2 else code;
    var code2 := if summary.warning > 0 && code1 < 1 then 1 else code1;
    if strict && (strictSummary.warning > 0 || strictSummary.critical > 0) && code2 < 2 then 2 else code2
  }

  /** The command: the reported run, the number of hidden info issues, and the exit code. */
  function CheckCommand(store: Store, defs: seq<Check>, opts: Options, strict: bool, hasScanErrors: bool)
    : (CheckResult, nat, int)
  {
    var result := Run(store, defs, opts);
    var hidden := if opts.min == Warning then Run(store, defs, AtLeast(opts, NO_MINIMUM)).summary.info else 0;
    var strictSummary :=
      if strict && opts.min == Critical then Run(store, defs, AtLeast(opts, Warning)).summary else result.summary;
    (result, hidden, ExitCode(hasScanErrors, result.summary, strict, strictSummary))
  }

  /** With a minimum of warning, the issues reported and the info issues counted as hidden are together
      every info, warning and critical issue found. */
  lemma HiddenInfoIsWhatWasDropped(store: Store, defs: seq<Check>, opts: Options, strict: bool, errors: bool)
    requires opts.min == Warning
    ensures var (result, hidden, _) := CheckCommand(store, defs, opts, strict, errors);
            var all := Run(store, defs, AtLeast(opts, NO_MINIMUM)).issues;
            && result.summary.critical == Count(all, Critical) && result.summary.warning == Count(all, Warning)
            && result.summary.info == 0 && hidden == Count(all, Info)
  {
    SummariesAgree(store, defs, opts);
  }

  /** Under `--strict` the exit code does not depend on the minimum severity at all: it is 2 when there
      are scan errors or anything of warning or above was found. */
  lemma StrictExitIgnoresTheFilter(store: Store, defs: seq<Check>, opts: Options, errors: bool)
    ensures var (_, _, code) := CheckCommand(store, defs, opts, true, errors);
            var all := Run(store, defs, AtLeast(opts, NO_MINIMUM)).issues;
            code == if errors || Count(all, Warning) > 0 || Count(all, Critical) > 0 then 2 else 0
  {
    SummariesAgree(store, defs, opts);
    SummariesAgree(store, defs, AtLeast(opts, Warning));
  }

  // ---------------------------------------------------------------------------------------------
  // Exactly the checks that apply
  // ---------------------------------------------------------------------------------------------

  /** A certificate is a CA's or a leaf's, never both; one that did not parse counts as a leaf. */
  predicate IsOfKind(item: Item, kind: ItemKind) {
    match kind
    case Leaf => item.kind == Certificate && (item.certificate == None || !item.certificate.value.isCA)
    case CA => item.kind == Certificate && item.certificate.Some? && item.certificate.value.isCA
    case KeyItem => item.kind == PrivateKey
    case CSRItem => item.kind == CSR
    case Unclassified => item.kind == PublicKey
  }

  lemma KindExactly(item: Item, kind: ItemKind)
    ensures ItemKindOf(item) == kind <==> IsOfKind(item, kind)
  {}

  /** At least as severe; an unknown minimum keeps everything. */
  predicate ReachesMinimum(severity: Severity, min: Severity) {
    match min
    case Critical => severity == Critical
    case Warning => severity == Warning || severity == Critical
    case Info => severity == Info || severity == Warning || severity == Critical
    case Other(_) => true
  }

  lemma PassesExactly(issue: Issue, min: Severity)
    ensures Passes(issue, min) <==> ReachesMinimum(issue.severity, min)
  {}

  predicate MoreSevere(a: Severity, b: Severity) {
    (a == Critical && b != Critical) || (a == Warning && (b == Info || b.Other?)) || (a == Info && b.Other?)
  }

  /** Issues are reported most severe first. */
  lemma MostSevereFirst(store: Store, defs: seq<Check>, opts: Options)
    ensures var issues := Run(store, defs, opts).issues;
            forall i, j :: 0 <= i < j < |issues| ==> !MoreSevere(issues[j].severity, issues[i].severity)
  {
    SortDescends(Keep(Found(store, defs, opts), opts.min));
  }

  /** `issue` comes from an enabled check, run on an item of a kind it is written for, in a container
      that is checked. */
  ghost predicate Reported(store: Store, defs: seq<Check>, opts: Options, issue: Issue, ci: nat, ii: nat, def: Check) {
    && ci < |store| && !store[ci].relationsOnly && ii < |store[ci].items|
    && def in defs && def.id !in opts.disabled && (opts.categories == [] || def.category in opts.categories)
    && (exists kind <- def.appliesTo :: IsOfKind(store[ci].items[ii], kind))
    && issue in def.run(store[ci], store[ci].items[ii], Ref(store[ci], ci, ii))
  }

  lemma {:induction false} EnabledExact(defs: seq<Check>, opts: Options)
    ensures forall d :: d in Enabled(defs, opts) <==> d in defs && IsEnabled(d, opts)
  {
    if defs != [] {
      var n := |defs| - 1;
      EnabledExact(defs[..n], opts);
      assert defs == defs[..n] + [defs[n]];
    }
  }

  lemma {:induction false} ItemIssuesExact(defs: seq<Check>, c: Container, item: Item, ref: ItemRef, issue: Issue)
    ensures issue in ItemIssues(defs, c, item, ref) <==>
              exists d :: d in defs && ItemKindOf(item) in d.appliesTo && issue in d.run(c, item, ref)
  {
    if defs != [] {
      var n := |defs| - 1;
      ItemIssuesExact(defs[..n], c, item, ref, issue);
      assert defs == defs[..n] + [defs[n]];
      assert defs[n] in defs;
    }
  }

  lemma {:induction false} ContainerIssuesExact(defs: seq<Check>, c: Container, ci: nat, n: nat, issue: Issue)
    requires n <= |c.items|
    ensures issue in ContainerIssues(defs, c, ci, n) <==>
              exists ii :: 0 <= ii < n && issue in ItemIssues(defs, c, c.items[ii], Ref(c, ci, ii))
  {
    if n > 0 {
      ContainerIssuesExact(defs, c, ci, n - 1, issue);
    }
  }

  lemma {:induction false} StoreIssuesExact(defs: seq<Check>, store: Store, n: nat, issue: Issue)
    requires n <= |store|
    ensures issue in StoreIssues(defs, store, n) <==>
              exists ci :: 0 <= ci < n && !store[ci].relationsOnly
                           && issue in ContainerIssues(defs, store[ci], ci, |store[ci].items|)
  {
    if n > 0 {
      StoreIssuesExact(defs, store, n - 1, issue);
    }
  }

  predicate KeepsIssue(defs: seq<Check>, c: Container, ci: nat, min: Severity, path: string) {
    !c.relationsOnly && c.filePath == path && Keep(ContainerIssues(defs, c, ci, |c.items|), min) != []
  }

  /** A file counts as having issues exactly when one of its checked containers kept an issue. */
  lemma {:induction false} FilesExact(defs: seq<Check>, store: Store, min: Severity, n: nat, path: string)
    requires n <= |store|
    ensures path in FilesWithIssues(defs, store, min, n) <==>
              exists ci :: 0 <= ci < n && KeepsIssue(defs, store[ci], ci, min, path)
  {
    if n > 0 {
      FilesExact(defs, store, min, n - 1, path);
    }
  }

  lemma {:induction false} KeepExact(issues: seq<Issue>, min: Severity, issue: Issue)
    ensures issue in Keep(issues, min) <==> issue in issues && Passes(issue, min)
  {
    if issues != [] {
      var n := |issues| - 1;
      KeepExact(issues[..n], min, issue);
      assert issues == issues[..n] + [issues[n]];
    }
  }

  lemma {:induction false} OfRankExact(issues: seq<Issue>, rank: int, issue: Issue)
    ensures issue in OfRank(issues, rank) <==> issue in issues && Rank(issue.severity) == rank
  {
    if issues != [] {
      var n := |issues| - 1;
      OfRankExact(issues[..n], rank, issue);
      assert issues == issues[..n] + [issues[n]];
    }
  }

  lemma SortExact(issues: seq<Issue>, issue: Issue)
    ensures issue in SortByRank(issues) <==> issue in issues
  {
    OfRankExact(issues, 2, issue);
    OfRankExact(issues, 1, issue);
    OfRankExact(issues, 0, issue);
    OfRankExact(issues, -1, issue);
  }

  lemma FoundIsReported(store: Store, defs: seq<Check>, opts: Options, issue: Issue)
    requires issue in Found(store, defs, opts)
    ensures exists ci, ii, d :: Reported(store, defs, opts, issue, ci, ii, d)
  {
    var enabled := Enabled(defs, opts);
    StoreIssuesExact(enabled, store, |store|, issue);
    EnabledExact(defs, opts);
    var ci: nat :| ci < |store| && !store[ci].relationsOnly
                   && issue in ContainerIssues(enabled, store[ci], ci, |store[ci].items|);
    var c := store[ci];
    ContainerIssuesExact(enabled, c, ci, |c.items|, issue);
    var ii: nat :| ii < |c.items| && issue in ItemIssues(enabled, c, c.items[ii], Ref(c, ci, ii));
    ItemIssuesExact(enabled, c, c.items[ii], Ref(c, ci, ii), issue);
    var d :| d in enabled && ItemKindOf(c.items[ii]) in d.appliesTo && issue in d.run(c, c.items[ii], Ref(c, ci, ii));
    KindExactly(c.items[ii], ItemKindOf(c.items[ii]));
    assert Reported(store, defs, opts, issue, ci, ii, d);
  }

  lemma ReportedIsFound(store: Store, defs: seq<Check>, opts: Options, issue: Issue, ci: nat, ii: nat, d: Check)
    requires Reported(store, defs, opts, issue, ci, ii, d)
    ensures issue in Found(store, defs, opts)
  {
    var enabled, c := Enabled(defs, opts), store[ci];
    EnabledExact(defs, opts);
    KindExactly(c.items[ii], ItemKindOf(c.items[ii]));
    var kind :| kind in d.appliesTo && IsOfKind(c.items[ii], kind);
    KindExactly(c.items[ii], kind);
    ItemIssuesExact(enabled, c, c.items[ii], Ref(c, ci, ii), issue);
    ContainerIssuesExact(enabled, c, ci, |c.items|, issue);
    StoreIssuesExact(enabled, store, |store|, issue);
  }

  /** The run reports exactly what the enabled checks say about items of the kinds they are written for. */
  lemma RunReportsExactly(store: Store, defs: seq<Check>, opts: Options, issue: Issue)
    ensures issue in Run(store, defs, opts).issues <==>
              && ReachesMinimum(issue.severity, opts.min)
              && exists ci, ii, d :: Reported(store, defs, opts, issue, ci, ii, d)
  {
    PassesExactly(issue, opts.min);
    SortExact(Keep(Found(store, defs, opts), opts.min), issue);
    KeepExact(Found(store, defs, opts), opts.min, issue);
    if issue in Found(store, defs, opts) {
      FoundIsReported(store, defs, opts, issue);
    }
    if ci, ii, d :| Reported(store, defs, opts, issue, ci, ii, d) {
      ReportedIsFound(store, defs, opts, issue, ci, ii, d);
    }
  }
}
