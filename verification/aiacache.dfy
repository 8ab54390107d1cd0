/** The on-disk cache of fetched issuers (`aia_cache.go`): one file per certificate, named by its digest, and
    an index of URLs, loaded on first use. It behaves as a map from URL to certificate and dates. */
module AiaCache {
  import opened CertTypes

  datatype Certificate = Certificate(raw: Bytes, subject: string, notAfter: int)

  /** A fetch to remember; a zero time is `None`. */
  datatype Fetched = Fetched(cert: Option<Certificate>, url: string, fetchedAt: Option<int>)

  datatype Entry = Entry(sha256: string, url: string, subject: string, fetchedAt: int, expiresAt: int)

  /** What the cache is for: the certificate last remembered for a URL. */
  datatype Remembered = Remembered(cert: Certificate, fetchedAt: int, expiresAt: int)

  datatype Hit = Hit(cert: Certificate, url: string, fetchedAt: int)

  type View = map<string, Remembered>

  type Parser = Bytes -> Option<Certificate>

  type Digest = Bytes -> string

  /** Different bytes have different digests. */
  ghost predicate Injective(digest: Digest) {
    forall a, b :: digest(a) == digest(b) ==> a == b
  }

  /** Every file holds the bytes its name is the digest of. */
  ghost predicate ContentAddressed(files: map<string, Bytes>, digest: Digest) {
    forall id <- files :: digest(files[id]) == id
  }

  /** One entry per URL. */
  predicate DistinctUrls(entries: seq<Entry>) {
    forall i, j :: 0 <= i < j < |entries| ==> entries[i].url != entries[j].url
  }

  /** The entry stands for this in the view, and its file reads back. */
  predicate StandsFor(e: Entry, files: map<string, Bytes>, parse: Parser, r: Remembered) {
    e.sha256 in files && parse(files[e.sha256]) == Some(r.cert) && e.fetchedAt == r.fetchedAt
        && e.expiresAt == r.expiresAt
  }

  /** The entries and files hold exactly this view. */
  ghost predicate Represents(entries: seq<Entry>, files: map<string, Bytes>, parse: Parser, view: View) {
    && DistinctUrls(entries)
    && (forall i :: 0 <= i < |entries| ==>
                      entries[i].url in view && StandsFor(entries[i], files, parse, view[entries[i].url]))
    && (forall u <- view :: HasUrl(entries, u))
  }

  predicate HasUrl(entries: seq<Entry>, url: string) {
    exists i :: 0 <= i < |entries| && entries[i].url == url
  }

  lemma RepresentsWithFile(entries: seq<Entry>, files: map<string, Bytes>, parse: Parser, view: View,
                           digest: Digest, raw: Bytes)
    requires Injective(digest) && ContentAddressed(files, digest) && Represents(entries, files, parse, view)
    ensures ContentAddressed(files[digest(raw) := raw], digest)
    ensures Represents(entries, files[digest(raw) := raw], parse, view)
  {
    var id := digest(raw);
    assert id in files ==> files[id] == raw;
    forall i | 0 <= i < |entries|
      ensures StandsFor(entries[i], files[id := raw], parse, view[entries[i].url])
    {
      assert StandsFor(entries[i], files, parse, view[entries[i].url]);
    }
  }

  lemma RepresentsReplaced(entries: seq<Entry>, files: map<string, Bytes>, parse: Parser, view: View, i: nat,
                           entry: Entry, r: Remembered)
    requires Represents(entries, files, parse, view) && StandsFor(entry, files, parse, r)
    requires i < |entries| && entries[i].url == entry.url
    ensures Represents(entries[i := entry], files, parse, view[entry.url := r])
  {
    var edited := entries[i := entry];
    forall u | u in view[entry.url := r] ensures HasUrl(edited, u) {
      assert HasUrl(entries, u);
      var k :| 0 <= k < |entries| && entries[k].url == u;
      assert edited[k].url == u;
    }
  }

  lemma RepresentsAppended(entries: seq<Entry>, files: map<string, Bytes>, parse: Parser, view: View,
                           entry: Entry, r: Remembered)
    requires Represents(entries, files, parse, view) && StandsFor(entry, files, parse, r)
    requires forall i :: 0 <= i < |entries| ==> entries[i].url != entry.url
    ensures Represents(entries + [entry], files, parse, view[entry.url := r])
  {
    var more := entries + [entry];
    forall u | u in view[entry.url := r] ensures HasUrl(more, u) {
      if u == entry.url {
        assert more[|entries|].url == u;
      } else {
        assert HasUrl(entries, u);
        var k :| 0 <= k < |entries| && entries[k].url == u;
        assert more[k].url == u;
      }
    }
  }

  /** The cache directory: the certificate files and the saved index, `None` when there is none. */
  class Directory {
    var files: map<string, Bytes>
    var saved: Option<seq<Entry>>
    ghost var stored: View

    constructor Empty()
      ensures files == map[] && saved == None && stored == map[]
    {
      files, saved, stored := map[], None, map[];
    }

    function SavedEntries(): seq<Entry>
      reads this
    {
      if saved == None then [] else saved.value
    }

    ghost predicate Valid(parse: Parser, digest: Digest)
      reads this
    {
      Injective(digest) && ContentAddressed(files, digest) && Represents(SavedEntries(), files, parse, stored)
    }
  }

  /** The file operations of one call that succeed. A failed one changes nothing. */
  datatype Disk = Disk(mkdir: bool, file: bool, index: bool)

  class FileAIACache {
    const dir: Directory
    const ttl: int
    const parse: Parser
    const digest: Digest
    var index: Option<seq<Entry>>
    ghost var view: View

    ghost predicate Valid()
      reads this, dir
    {
      && dir.Valid(parse, digest)
      && if index == None then view == dir.stored else Represents(index.value, dir.files, parse, view)
    }

    /** Opening a directory: whatever was stored there is in view, and nothing is read yet. */
    constructor (dir: Directory, ttl: int, parse: Parser, digest: Digest)
      requires dir.Valid(parse, digest)
      ensures this.dir == dir && this.ttl == ttl && this.parse == parse && this.digest == digest
      ensures Valid() && view == dir.stored
    {
      this.dir, this.ttl, this.parse, this.digest := dir, ttl, parse, digest;
      index, view := None, dir.stored;
    }

    /** `load`. */
    method Load() returns (entries: seq<Entry>)
      requires Valid()
      modifies this`index
      ensures Valid() && index == Some(entries) && Represents(entries, dir.files, parse, view)
    {
      if index == None {
        index := Some(dir.SavedEntries());
      }
      entries := index.value;
    }

    /** Returns the certificate in view for the URL, unless it has expired. */
    method Get(url: string, now: int) returns (hit: Option<Hit>)
      requires Valid()
      modifies this`index
      ensures Valid()
      ensures hit == if url in view && now <= view[url].expiresAt
          then Some(Hit(view[url].cert, url, view[url].fetchedAt))
                     else None
    {
      var entries := Load();
      for i := 0 to |entries|
        invariant forall k :: 0 <= k < i ==> entries[k].url != url
      {
        var e := entries[i];
        if e.url != url {
          continue;
        }
        assert StandsFor(e, dir.files, parse, view[url]);
        if now > e.expiresAt {
          return None;
        }
        if e.sha256 !in dir.files {
          return None;
        }
        var cert := parse(dir.files[e.sha256]);
        if cert == None {
          return None;
        }
        return Some(Hit(cert.value, e.url, e.fetchedAt));
      }
      return None;
    }

    /** Remembers a fetched certificate until its own NotAfter or `ttl` after the fetch, whichever is first.
        On success memory and disk both hold it; when only the index could not be saved, memory does. */
    method Put(f: Fetched, now: int, disk: Disk) returns (ok: bool)
      requires Valid() && (f.cert.Some? ==> parse(f.cert.value.raw) == f.cert)
      modifies this, dir
      ensures Valid()
      ensures ok == (f.cert == None || (disk.mkdir && disk.file && disk.index))
      ensures f.cert == None || !disk.mkdir || !disk.file ==> view == old(view) && dir.stored == old(dir.stored)
      ensures f.cert.Some? && disk.mkdir && disk.file ==> view == old(view)[f.url := Kept(f, now, ttl)]
      ensures f.cert.Some? && disk.mkdir && disk.file ==> dir.stored == if disk.index then view else old(dir.stored)
    {
      if f.cert == None {
        return true;
      }
      if !disk.mkdir || !disk.file {
        return false;
      }
      var cert := f.cert.value;
      var id := digest(cert.raw);
      WriteFile(cert.raw);
      var fetchedAt := if f.fetchedAt == None then now else f.fetchedAt.value;
      var expires := fetchedAt + ttl;
      if cert.notAfter < expires {
        expires := cert.notAfter;
      }
      Index(Entry(id, f.url, cert.subject, fetchedAt, expires), Kept(f, now, ttl));
      ok := Save(disk.index);
    }

    /** Replaces the URL's entry in place, or appends one. */
    method Index(entry: Entry, ghost kept: Remembered)
      requires Valid() && StandsFor(entry, dir.files, parse, kept)
      modifies this
      ensures Valid() && index.Some? && view == old(view)[entry.url := kept]
    {
      var entries := Load();
      for i := 0 to |entries|
        invariant forall k :: 0 <= k < i ==> entries[k].url != entry.url
      {
        if entries[i].url == entry.url {
          RepresentsReplaced(entries, dir.files, parse, view, i, entry, kept);
          index, view := Some(entries[i := entry]), view[entry.url := kept];
          return;
        }
      }
      RepresentsAppended(entries, dir.files, parse, view, entry, kept);
      index, view := Some(entries + [entry]), view[entry.url := kept];
    }

    /** Writes a certificate file; no other URL's bytes change. */
    method WriteFile(raw: Bytes)
      requires Valid()
      modifies dir`files
      ensures Valid() && dir.files == old(dir.files)[digest(raw) := raw]
      ensures forall id <- old(dir.files) :: dir.files[id] == old(dir.files)[id]
    {
      RepresentsWithFile(dir.SavedEntries(), dir.files, parse, dir.stored, digest, raw);
      if index.Some? {
        RepresentsWithFile(index.value, dir.files, parse, view, digest, raw);
      }
      assert forall id <- dir.files :: dir.files[digest(raw) := raw][id] == dir.files[id];
      dir.files := dir.files[digest(raw) := raw];
    }

    method Save(works: bool) returns (ok: bool)
      requires Valid() && index.Some?
      modifies dir`saved, dir`stored
      ensures Valid() && ok == works && dir.stored == if works then view else old(dir.stored)
    {
      if works {
        dir.saved, dir.stored := index, view;
      }
      return works;
    }

    /** Empties the cache; if the directory cannot be removed, what was stored there is in view again. */
    method Clear(works: bool) returns (ok: bool)
      requires Valid()
      modifies this, dir
      ensures Valid() && ok == works && view == dir.stored
      ensures dir.stored == if works then map[] else old(dir.stored)
    {
      index := None;
      view := dir.stored;
      if !works {
        return false;
      }
      dir.files, dir.saved, dir.stored := map[], None, map[];
      view := map[];
      return true;
    }
  }

  /** What a fetch is remembered as. */
  function Kept(f: Fetched, now: int, ttl: int): Remembered
    requires f.cert.Some?
  {
    var fetchedAt := if f.fetchedAt == None then now else f.fetchedAt.value;
    Remembered(f.cert.value, fetchedAt,
               if f.cert.value.notAfter < fetchedAt + ttl then f.cert.value.notAfter else fetchedAt + ttl)
  }

  // ---------------------------------------------------------------------------------------------
  // Runs
  // ---------------------------------------------------------------------------------------------

  /** A call with what the disk makes of it, or the directory opened again by a new process. */
  datatype Op = PutOp(f: Fetched, now: int, disk: Disk) | GetOp(url: string, now: int) | ClearOp(works: bool) | ReopenOp

  /** What the cache holds in memory and on disk. */
  datatype State = State(view: View, stored: View)

  function Step(s: State, op: Op, ttl: int): State {
    match op
    case PutOp(f, now, disk) =>
      if f.cert == None || !disk.mkdir || !disk.file then s
      else
        var view := s.view[f.url := Kept(f, now, ttl)];
        State(view, if disk.index then view else s.stored)
    case GetOp(_, _) => s
    case ClearOp(works) => if works then State(map[], map[]) else State(s.stored, s.stored)
    case ReopenOp => State(s.stored, s.stored)
  }

  function After(ops: seq<Op>, ttl: int): State {
    if ops == [] then State(map[], map[]) else Step(After(ops[..|ops| - 1], ttl), ops[|ops| - 1], ttl)
  }

  /** What a Get returns; nothing for the other calls. */
  function AnswerTo(op: Op, view: View): Option<Hit> {
    if op.GetOp? && op.url in view && op.now <= view[op.url].expiresAt
    then Some(Hit(view[op.url].cert, op.url, view[op.url].fetchedAt))
    else None
  }

  /** One call on a cache, with a new one in its place when the directory is opened again. */
  method PlayOne(cache: FileAIACache, op: Op) returns (next: FileAIACache, answer: Option<Hit>)
    requires cache.Valid()
    requires op.PutOp? && op.f.cert.Some? ==> cache.parse(op.f.cert.value.raw) == op.f.cert
    modifies cache, cache.dir
    ensures (next == cache || fresh(next)) && next.Valid()
    ensures next.dir == cache.dir && next.ttl == cache.ttl && next.parse == cache.parse && next.digest == cache.digest
    ensures State(next.view, next.dir.stored) == Step(State(old(cache.view), old(cache.dir.stored)), op, cache.ttl)
    ensures answer == AnswerTo(op, old(cache.view))
  {
    next, answer := cache, None;
    match op
    case PutOp(f, now, disk) => var ok := cache.Put(f, now, disk);
    case GetOp(url, now) => answer := cache.Get(url, now);
    case ClearOp(works) => var ok := cache.Clear(works);
    case ReopenOp => next := new FileAIACache(cache.dir, cache.ttl, cache.parse, cache.digest);
  }

  /** Plays a run on an empty directory: what is in memory, on disk and answered is what `After` says. */
  method Play(dir: Directory, ttl: int, parse: Parser, digest: Digest, ops: seq<Op>)
    returns (cache: FileAIACache, answers: seq<Option<Hit>>)
    requires dir.Valid(parse, digest) && dir.stored == map[]
    requires forall i :: 0 <= i < |ops| && ops[i].PutOp? && ops[i].f.cert.Some? ==>
                           parse(ops[i].f.cert.value.raw) == ops[i].f.cert
    modifies dir
    ensures fresh(cache) && cache.Valid() && cache.dir == dir
    ensures State(cache.view, dir.stored) == After(ops, ttl)
    ensures |answers| == |ops| && forall n :: 0 <= n < |ops| ==>
        answers[n] == AnswerTo(ops[n], After(ops[..n], ttl).view)
  {
    cache := new FileAIACache(dir, ttl, parse, digest);
    answers := [];
    for n := 0 to |ops|
      invariant fresh(cache) && cache.Valid() && cache.dir == dir
      invariant cache.ttl == ttl && cache.parse == parse && cache.digest == digest
      invariant State(cache.view, dir.stored) == After(ops[..n], ttl)
      invariant |answers| == n
      invariant forall k :: 0 <= k < n ==> answers[k] == AnswerTo(ops[k], After(ops[..k], ttl).view)
    {
      assert ops[..n + 1][..n] == ops[..n];
      var answer;
      cache, answer := PlayOne(cache, ops[n]);
      answers := answers + [answer];
    }
    assert ops[..|ops|] == ops;
  }

  /** The call put something for the URL. */
  predicate PutsFor(op: Op, url: string) {
    op.PutOp? && op.f.cert.Some? && op.disk.mkdir && op.disk.file && op.f.url == url
  }

  /** The call wrote everything in memory to disk. */
  predicate Saves(op: Op) {
    op.PutOp? && op.f.cert.Some? && op.disk.mkdir && op.disk.file && op.disk.index
  }

  predicate Wipes(op: Op) {
    op == ClearOp(true)
  }

  /** The call drops what is in memory only. */
  predicate Forgets(op: Op) {
    op == ClearOp(false) || op == ReopenOp
  }

  /** Everything was saved between call `i` and call `n`. */
  predicate SavedBetween(ops: seq<Op>, i: nat, n: nat) {
    exists j :: i <= j < n && j < |ops| && Saves(ops[j])
  }

  /** No wipe came after call `i`, and what it did was saved before anything was forgotten. */
  predicate Survives(ops: seq<Op>, i: nat) {
    && i < |ops|
    && (forall k: nat :: i < k < |ops| ==> !Wipes(ops[k]))
    && (forall k: nat :: i < k < |ops| && Forgets(ops[k]) ==> SavedBetween(ops, i, k))
  }

  /** It survives and was saved. */
  predicate Durable(ops: seq<Op>, i: nat) {
    Survives(ops, i) && SavedBetween(ops, i, |ops|)
  }

  lemma SavedStep(ops: seq<Op>, op: Op, i: nat, n: nat)
    requires n <= |ops|
    ensures SavedBetween(ops + [op], i, n) <==> SavedBetween(ops, i, n)
    ensures SavedBetween(ops + [op], i, |ops| + 1) <==> SavedBetween(ops, i, |ops|) || (i <= |ops| && Saves(op))
  {
    var all := ops + [op];
    assert forall j :: 0 <= j < |ops| ==> all[j] == ops[j];
    if i <= |ops| && Saves(op) {
      assert Saves(all[|ops|]);
    }
    if j :| i <= j < n && j < |ops| && Saves(ops[j]) {
      assert Saves(all[j]);
    }
    if j :| i <= j < |ops| && Saves(ops[j]) {
      assert Saves(all[j]);
    }
  }

  /** One more call decides what survives by what it does to memory and disk. */
  lemma SurvivesStep(ops: seq<Op>, op: Op, i: nat)
    requires i < |ops|
    ensures Survives(ops + [op], i) <==>
              !Wipes(op) && if Forgets(op) then Durable(ops, i) else Survives(ops, i)
    ensures Durable(ops + [op], i) <==>
              !Wipes(op) && if Saves(op) then Survives(ops, i) else Durable(ops, i)
  {
    var all := ops + [op];
    assert forall k :: 0 <= k < |ops| ==> all[k] == ops[k];
    forall k: nat | k <= |ops| ensures SavedBetween(all, i, k) <==> SavedBetween(ops, i, k) {
      SavedStep(ops, op, i, k);
    }
    SavedStep(ops, op, i, |ops|);
    assert all[|ops|] == op;
  }

  lemma LastCall(ops: seq<Op>, op: Op)
    ensures Survives(ops + [op], |ops|) && (Durable(ops + [op], |ops|) <==> Saves(op))
  {
    SavedStep(ops, op, |ops|, |ops|);
  }

  /** `i` is the last Put for the URL among those that survive. */
  predicate LastSurviving(ops: seq<Op>, url: string, i: nat) {
    && i < |ops| && PutsFor(ops[i], url) && Survives(ops, i)
    && forall k: nat :: i < k < |ops| && PutsFor(ops[k], url) ==> !Survives(ops, k)
  }

  predicate LastDurable(ops: seq<Op>, url: string, i: nat) {
    && i < |ops| && PutsFor(ops[i], url) && Durable(ops, i)
    && forall k: nat :: i < k < |ops| && PutsFor(ops[k], url) ==> !Durable(ops, k)
  }

  /** The view holds for the URL what call `i` put, nothing when `i` is -1. */
  predicate HoldsPut(view: View, ops: seq<Op>, url: string, ttl: int, i: int) {
    if i == -1 then url !in view
    else 0 <= i < |ops| && PutsFor(ops[i], url) && url in view && view[url] == Kept(ops[i].f, ops[i].now, ttl)
  }

  predicate IsLastSurviving(ops: seq<Op>, url: string, i: int) {
    if i == -1 then forall k: nat :: k < |ops| && PutsFor(ops[k], url) ==> !Survives(ops, k)
    else i >= 0 && LastSurviving(ops, url, i)
  }

  predicate IsLastDurable(ops: seq<Op>, url: string, i: int) {
    if i == -1 then forall k: nat :: k < |ops| && PutsFor(ops[k], url) ==> !Durable(ops, k)
    else i >= 0 && LastDurable(ops, url, i)
  }

  lemma {:induction false} RunExact(ops: seq<Op>, ttl: int, url: string) returns (i: int, d: int)
    ensures IsLastSurviving(ops, url, i) && HoldsPut(After(ops, ttl).view, ops, url, ttl, i)
    ensures IsLastDurable(ops, url, d) && HoldsPut(After(ops, ttl).stored, ops, url, ttl, d)
  {
    if ops == [] {
      i, d := -1, -1;
    } else {
      var n := |ops| - 1;
      var front, op := ops[..n], ops[n];
      var fi, fd := RunExact(front, ttl, url);
      assert ops == front + [op];
      i := if Wipes(op) then -1 else if Forgets(op) then fd else if PutsFor(op, url) then n else fi;
      d := if Wipes(op) then -1 else if Saves(op) then i else fd;
      LastStep(front, op, url, fi, fd, i, d);
      ViewStep(front, op, url, ttl, fi, fd, i, d);
    }
  }

  /** How one more call changes which Put is the last. */
  lemma LastStep(front: seq<Op>, op: Op, url: string, fi: int, fd: int, i: int, d: int)
    requires IsLastSurviving(front, url, fi) && IsLastDurable(front, url, fd)
    requires i == if Wipes(op) then -1 else if Forgets(op) then fd else if PutsFor(op, url) then |front| else fi
    requires d == if Wipes(op) then -1 else if Saves(op) then i else fd
    ensures IsLastSurviving(front + [op], url, i) && IsLastDurable(front + [op], url, d)
  {
    var ops := front + [op];
    forall k: nat | k < |front|
      ensures ops[k] == front[k]
      ensures Survives(ops, k) <==> !Wipes(op) && if Forgets(op) then Durable(front, k) else Survives(front, k)
      ensures Durable(ops, k) <==> !Wipes(op) && if Saves(op) then Survives(front, k) else Durable(front, k)
    {
      SurvivesStep(front, op, k);
    }
    LastCall(front, op);
    assert ops[|front|] == op;
  }

  lemma ViewStep(front: seq<Op>, op: Op, url: string, ttl: int, fi: int, fd: int, i: int, d: int)
    requires HoldsPut(After(front, ttl).view, front, url, ttl, fi)
    requires HoldsPut(After(front, ttl).stored, front, url, ttl, fd)
    requires i == if Wipes(op) then -1 else if Forgets(op) then fd else if PutsFor(op, url) then |front| else fi
    requires d == if Wipes(op) then -1 else if Saves(op) then i else fd
    ensures HoldsPut(After(front + [op], ttl).view, front + [op], url, ttl, i)
    ensures HoldsPut(After(front + [op], ttl).stored, front + [op], url, ttl, d)
  {
    assert (front + [op])[..|front|] == front;
    assert After(front + [op], ttl) == Step(After(front, ttl), op, ttl);
  }

  /** `r` is what this Put is remembered as: its certificate, the time of the fetch, and until the certificate ends or
      `ttl` after the fetch, whichever is first. */
  predicate IsKept(r: Remembered, op: Op, ttl: int) {
    && op.PutOp? && op.f.cert == Some(r.cert)
    && r.fetchedAt == (match op.f.fetchedAt case Some(t) => t case None => op.now)
    && r.expiresAt <= r.cert.notAfter && r.expiresAt <= r.fetchedAt + ttl
    && (r.expiresAt == r.cert.notAfter || r.expiresAt == r.fetchedAt + ttl)
  }

  /** After any run from an empty directory, with failing writes and with the directory opened again, the cache holds
      for a URL exactly the last certificate Put for it that survives, and the disk the last that was also saved; a
      Get finds it until the earlier of NotAfter and fetch time plus TTL. */
  lemma RunHoldsLastPuts(ops: seq<Op>, ttl: int, url: string)
    ensures var s := After(ops, ttl);
            && (url in s.view <==> exists i: nat :: LastSurviving(ops, url, i))
            && (forall i: nat :: LastSurviving(ops, url, i) ==> IsKept(s.view[url], ops[i], ttl))
            && (url in s.stored <==> exists i: nat :: LastDurable(ops, url, i))
            && (forall i: nat :: LastDurable(ops, url, i) ==> IsKept(s.stored[url], ops[i], ttl))
  {
    var i, d := RunExact(ops, ttl, url);
    forall k: nat | LastSurviving(ops, url, k) ensures k == i {
      OneLastSurviving(ops, url, i, k);
    }
    forall k: nat | LastDurable(ops, url, k) ensures k == d {
      OneLastDurable(ops, url, d, k);
    }
  }

  lemma OneLastSurviving(ops: seq<Op>, url: string, i: int, k: nat)
    requires IsLastSurviving(ops, url, i) && LastSurviving(ops, url, k)
    ensures i == k
  {}

  lemma OneLastDurable(ops: seq<Op>, url: string, d: int, k: nat)
    requires IsLastDurable(ops, url, d) && LastDurable(ops, url, k)
    ensures d == k
  {}

  /** Neither the certificate nor the time to live of the fetch has ended. */
  predicate StillGood(op: Op, now: int, ttl: int) {
    && op.PutOp? && op.f.cert.Some? && now <= op.f.cert.value.notAfter
    && now <= (match op.f.fetchedAt case Some(t) => t case None => op.now) + ttl
  }

  /** A Get in a run answers with the last surviving Put for the URL, exactly while it has not expired. */
  lemma GetAnswersExactly(ops: seq<Op>, ttl: int, url: string, now: int)
    ensures var answer := AnswerTo(GetOp(url, now), After(ops, ttl).view);
            && (answer.Some? <==>
                exists i: nat :: LastSurviving(ops, url, i) && StillGood(ops[i], now, ttl))
            && (forall i: nat :: LastSurviving(ops, url, i) && answer.Some? ==>
                Some(answer.value.cert) == ops[i].f.cert)
  {
    RunHoldsLastPuts(ops, ttl, url);
  }
}
