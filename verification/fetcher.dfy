/** `fetch_dir`, `fetch_file` and `fetch_files` (utils/github_fetcher.py).
    The contents API is replaced by its answers: a listing tree whose file
    entries carry the outcome of their download. The result is Python's
    insertion-ordered dict, a sequence of (path, content) pairs in which
    `None` stands for a failed download.

    The walk is written once and parameterised by how a directory hands the
    downloads of its own files back to their paths: `ScanForPlaceholders`
    is `fetch_dir`'s loop as written (results go, in order, to every key
    whose value is still `None`); `ZipByPath` gives each download to its own
    path, which the comment on that loop says is the intent. */
module Fetcher {
  import opened Wrappers
  import opened Text
  import opened Seqs

  /** What `fetch_file` yields: the response text, or `None` after any
      failure (modelled with the reason, which `fetch_file` only logs). */
  datatype Download = Fetched(text: string) | FetchFailed(reason: string)

  /** The answer of the contents API for one path: an error status, a
      single file object, or a directory array. */
  datatype Listing =
    | ListFailed(reason: string)
    | SingleFile(path: string, download: Download)
    | Directory(items: seq<Item>)

  /** One entry of a directory array, by its `type` field. */
  datatype Item =
    | FileItem(name: string, path: string, download: Download)
    | DirItem(path: string, listing: Listing)
    | OtherItem(path: string, kind: string)

  /** Why a fetch aborts: a listing request failed, or the reassembly loop
      indexed past the end of the download results. */
  datatype FetchError = ListingError(reason: string) | IndexOutOfRange

  datatype Mode = ScanForPlaceholders | ZipByPath

  type Dict = seq<(string, Option<string>)>

  const BinaryExtensions: seq<string> := [".png", ".jpg", ".jpeg", ".gif", ".ico", ".exe", ".dll", ".zip", ".tar"]

  /** The name, lower-cased, ends with one of the skipped extensions. */
  predicate IsBinary(name: string)
  {
    exists i :: 0 <= i < |BinaryExtensions| && EndsWith(Lower(name), BinaryExtensions[i])
  }

  function DownloadValue(dl: Download): Option<string>
  {
    match dl
    case Fetched(t) => Some(t)
    case FetchFailed(_) => None
  }

  // ---------------------------------------------------------------- dicts

  function Keys(d: Dict): (ks: seq<string>)
    ensures |ks| == |d|
    ensures forall i :: 0 <= i < |d| ==> ks[i] == d[i].0
  {
    if |d| == 0 then [] else [d[0].0] + Keys(d[1..])
  }

  lemma {:induction false} KeysAppend(a: Dict, b: Dict)
    ensures Keys(a + b) == Keys(a) + Keys(b)
  {
    assert |Keys(a + b)| == |Keys(a) + Keys(b)|;
    forall i | 0 <= i < |a + b|
      ensures Keys(a + b)[i] == (Keys(a) + Keys(b))[i]
    {
      if i < |a| {
        assert (a + b)[i] == a[i];
      } else {
        assert (a + b)[i] == b[i - |a|];
      }
    }
  }

  /** `d[key]` when present: the value of the first pair with that key. */
  function Lookup(d: Dict, key: string): (r: Option<Option<string>>)
    ensures r.Some? <==> key in Keys(d)
  {
    if |d| == 0 then None
    else if d[0].0 == key then Some(d[0].1)
    else Lookup(d[1..], key)
  }

  /** `d[key] = v`: an existing key keeps its place, a new key goes last. */
  function Put(d: Dict, key: string, v: Option<string>): (r: Dict)
    ensures key !in Keys(d) ==> r == d + [(key, v)]
    ensures key in Keys(d) ==> Keys(r) == Keys(d)
  {
    if |d| == 0 then [(key, v)]
    else if d[0].0 == key then
      assert Keys([(key, v)] + d[1..]) == [key] + Keys(d[1..]);
      [(key, v)] + d[1..]
    else
      var t := Put(d[1..], key, v);
      assert ([d[0]] + t)[1..] == t;
      assert Keys([d[0]] + t) == [d[0].0] + Keys(t);
      [d[0]] + t
  }

  /** After `d[key] = v`, looking up `key` gives `v` and any other key
      gives what it gave before. */
  lemma {:induction false} PutLookup(d: Dict, key: string, v: Option<string>, k: string)
    ensures Lookup(Put(d, key, v), k) == if k == key then Some(v) else Lookup(d, k)
    decreases |d|
  {
    if |d| > 0 && d[0].0 != key {
      PutLookup(d[1..], key, v, k);
      assert ([d[0]] + Put(d[1..], key, v))[1..] == Put(d[1..], key, v);
    }
  }

  /** `d.update(e)`: the pairs of `e` put into `d` one after another. */
  function Merge(d: Dict, e: Dict): Dict
    decreases |e|
  {
    if |e| == 0 then d else Merge(Put(d, e[0].0, e[0].1), e[1..])
  }

  /** `zip(paths, results)`: each task's path paired with the result that
      `gather` returns for that task. */
  function Assignments(pending: seq<(string, Download)>): (a: Dict)
    ensures |a| == |Paths(pending)| == |Results(pending)|
    ensures forall i :: 0 <= i < |a| ==> a[i] == (Paths(pending)[i], Results(pending)[i])
  {
    seq(|pending|, i requires 0 <= i < |pending| => (pending[i].0, DownloadValue(pending[i].1)))
  }

  /** `asyncio.gather` over the tasks: their results in task order. */
  function Results(pending: seq<(string, Download)>): (rs: seq<Option<string>>)
    ensures |rs| == |pending|
    ensures forall i :: 0 <= i < |rs| ==> rs[i] == DownloadValue(pending[i].1)
  {
    seq(|pending|, i requires 0 <= i < |pending| => DownloadValue(pending[i].1))
  }

  /** The keys whose value is `None`, in order. */
  function NonePaths(d: Dict): seq<string>
  {
    if |d| == 0 then [] else (if d[0].1.None? then [d[0].0] else []) + NonePaths(d[1..])
  }

  /** The reassembly loop as written: walking the keys in order, each key
      whose value is `None` receives the next result; asking for a result
      past the last one is an `IndexError`. */
  function Scan(d: Dict, rs: seq<Option<string>>): Result<Dict, FetchError>
  {
    if |d| == 0 then Success([])
    else if d[0].1.None? then
      if |rs| == 0 then Failure(IndexOutOfRange)
      else
        match Scan(d[1..], rs[1..])
        case Success(t) => Success([(d[0].0, rs[0])] + t)
        case Failure(e) => Failure(e)
    else
      match Scan(d[1..], rs)
      case Success(t) => Success([d[0]] + t)
      case Failure(e) => Failure(e)
  }

  /** What a directory does once its walk is over: nothing without tasks,
      otherwise hand the results back by the chosen mode. */
  function Reassemble(files: Dict, pending: seq<(string, Download)>, mode: Mode): Result<Dict, FetchError>
  {
    if |pending| == 0 then Success(files)
    else
      match mode
      case ScanForPlaceholders => Scan(files, Results(pending))
      case ZipByPath => Success(Merge(files, Assignments(pending)))
  }

  // ---------------------------------------------------------------- walk

  /** `fetch_dir` on the listing `l`. A single file is kept only when its
      download gave non-empty text; a directory is walked and reassembled. */
  function FetchDir(l: Listing, mode: Mode): Result<Dict, FetchError>
    decreases l, if l.Directory? then |l.items| + 1 else 0
  {
    match l
    case ListFailed(reason) => Failure(ListingError(reason))
    case SingleFile(path, dl) =>
      Success(if dl.Fetched? && |dl.text| > 0 then [(path, Some(dl.text))] else [])
    case Directory(items) =>
      match Walk(l, 0, [], [], mode)
      case Failure(e) => Failure(e)
      case Success(walked) => Reassemble(walked.0, walked.1, mode)
  }

  /** The loop over the entries `l.items[k..]`, with the dict and the tasks
      built so far: a binary file is skipped, another file gets a `None`
      placeholder and a task, a subdirectory is fetched and merged, and any
      other entry is ignored. */
  function Walk(l: Listing, k: nat, files: Dict, pending: seq<(string, Download)>, mode: Mode)
    : Result<(Dict, seq<(string, Download)>), FetchError>
    requires l.Directory? && k <= |l.items|
    decreases l, |l.items| - k
  {
    if k == |l.items| then Success((files, pending))
    else
      match l.items[k]
      case FileItem(name, path, dl) =>
        if IsBinary(name) then Walk(l, k + 1, files, pending, mode)
        else Walk(l, k + 1, Put(files, path, None), pending + [(path, dl)], mode)
      case DirItem(_, sub) =>
        (match FetchDir(sub, mode)
         case Failure(e) => Failure(e)
         case Success(subFiles) => Walk(l, k + 1, Merge(files, subFiles), pending, mode))
      case OtherItem(_, _) => Walk(l, k + 1, files, pending, mode)
  }

  /** `fetch_files`: the fetch from the repository root. The service as
      written runs it with `ScanForPlaceholders`; `ZipByPath` is the
      corrected fetch. */
  function FetchFiles(root: Listing, mode: Mode): Result<Dict, FetchError>
  {
    FetchDir(root, mode)
  }

  // ----------------------------------------------------------- reference

  /** A file the walk meets, in discovery order: an entry of a directory
      array, or a listing that is a single file object. */
  datatype FileEntry = Listed(name: string, path: string, download: Download) | Lone(path: string, download: Download)

  /** Every file entry under `l`, depth first, in listing order. */
  function Entries(l: Listing): seq<FileEntry>
    decreases l, if l.Directory? then |l.items| + 1 else 0
  {
    match l
    case ListFailed(_) => []
    case SingleFile(path, dl) => [Lone(path, dl)]
    case Directory(_) => EntriesFrom(l, 0)
  }

  function EntriesFrom(l: Listing, k: nat): seq<FileEntry>
    requires l.Directory? && k <= |l.items|
    decreases l, |l.items| - k
  {
    if k == |l.items| then []
    else
      (match l.items[k]
       case FileItem(name, path, dl) => [Listed(name, path, dl)]
       case DirItem(_, sub) => Entries(sub)
       case OtherItem(_, _) => [])
      + EntriesFrom(l, k + 1)
  }

  /** Whether a file ends up in the result: an array entry unless its name
      is binary, a lone file object only with non-empty text. */
  predicate Kept(e: FileEntry)
  {
    match e
    case Listed(name, _, _) => !IsBinary(name)
    case Lone(_, dl) => dl.Fetched? && |dl.text| > 0
  }

  /** The pair a kept file contributes: its path and its download. */
  function EntryPair(e: FileEntry): (string, Option<string>)
  {
    (e.path, DownloadValue(e.download))
  }

  function KeepAll(es: seq<FileEntry>): Dict
  {
    if |es| == 0 then []
    else (if Kept(es[0]) then [EntryPair(es[0])] else []) + KeepAll(es[1..])
  }

  /** What fetching `l` should give: every kept file, in discovery order,
      with its own download. */
  function Expected(l: Listing): Dict
  {
    KeepAll(Entries(l))
  }

  function ExpectedFrom(l: Listing, k: nat): Dict
    requires l.Directory? && k <= |l.items|
  {
    KeepAll(EntriesFrom(l, k))
  }

  function EntryPaths(es: seq<FileEntry>): (ps: seq<string>)
    ensures |ps| == |es|
    ensures forall i :: 0 <= i < |es| ==> ps[i] == es[i].path
  {
    seq(|es|, i requires 0 <= i < |es| => es[i].path)
  }

  /** No two files under `l` share a path, as on GitHub. */
  predicate UniquePaths(l: Listing)
  {
    Distinct(EntryPaths(Entries(l)))
  }

  /** The listing error that aborts fetching `l`: the first failed listing
      request in depth-first order. */
  function FirstFailure(l: Listing): Option<string>
    decreases l, if l.Directory? then |l.items| + 1 else 0
  {
    match l
    case ListFailed(reason) => Some(reason)
    case SingleFile(_, _) => None
    case Directory(_) => FirstFailureFrom(l, 0)
  }

  function FirstFailureFrom(l: Listing, k: nat): Option<string>
    requires l.Directory? && k <= |l.items|
    decreases l, |l.items| - k
  {
    if k == |l.items| then None
    else if l.items[k].DirItem? && FirstFailure(l.items[k].listing).Some? then FirstFailure(l.items[k].listing)
    else FirstFailureFrom(l, k + 1)
  }

  // ------------------------------------------------------------ failures

  /** A failed listing request anywhere aborts the fetch, whatever the
      reassembly, and a listing error that is reported is the first such
      failure; with the corrected reassembly nothing else aborts it. */
  lemma {:induction false} FetchDirFailure(l: Listing, mode: Mode)
    ensures FirstFailure(l).Some? ==> FetchDir(l, mode).Failure?
    ensures FetchDir(l, mode).Failure? && FetchDir(l, mode).error.ListingError? ==>
              FirstFailure(l) == Some(FetchDir(l, mode).error.reason)
    ensures mode == ZipByPath ==> (FetchDir(l, mode).Failure? <==> FirstFailure(l).Some?)
    ensures mode == ZipByPath && FirstFailure(l).Some? ==>
              FetchDir(l, mode) == Failure(ListingError(FirstFailure(l).value))
    decreases l, if l.Directory? then |l.items| + 1 else 0
  {
    if l.Directory? {
      WalkFailure(l, 0, [], [], mode);
      var w := Walk(l, 0, [], [], mode);
      if w.Success? && w.value.1 != [] && mode == ScanForPlaceholders {
        ScanFailsIff(w.value.0, Results(w.value.1));
      }
    }
  }

  lemma {:induction false} WalkFailure(l: Listing, k: nat, files: Dict, pending: seq<(string, Download)>, mode: Mode)
    requires l.Directory? && k <= |l.items|
    ensures FirstFailureFrom(l, k).Some? ==> Walk(l, k, files, pending, mode).Failure?
    ensures Walk(l, k, files, pending, mode).Failure? && Walk(l, k, files, pending, mode).error.ListingError? ==>
              FirstFailureFrom(l, k) == Some(Walk(l, k, files, pending, mode).error.reason)
    ensures mode == ZipByPath ==> (Walk(l, k, files, pending, mode).Failure? <==> FirstFailureFrom(l, k).Some?)
    ensures mode == ZipByPath && FirstFailureFrom(l, k).Some? ==>
              Walk(l, k, files, pending, mode) == Failure(ListingError(FirstFailureFrom(l, k).value))
    decreases l, |l.items| - k
  {
    if k < |l.items| {
      match l.items[k]
      case FileItem(name, path, dl) =>
        if IsBinary(name) {
          WalkFailure(l, k + 1, files, pending, mode);
        } else {
          WalkFailure(l, k + 1, Put(files, path, None), pending + [(path, dl)], mode);
        }
      case DirItem(_, sub) =>
        FetchDirFailure(sub, mode);
        if FetchDir(sub, mode).Success? {
          WalkFailure(l, k + 1, Merge(files, FetchDir(sub, mode).value), pending, mode);
        }
      case OtherItem(_, _) =>
        WalkFailure(l, k + 1, files, pending, mode);
    }
  }

  // ---------------------------------------------------------- dict facts

  lemma {:induction false} PutCons(x: (string, Option<string>), t: Dict, key: string, v: Option<string>)
    requires x.0 != key
    ensures Put([x] + t, key, v) == [x] + Put(t, key, v)
  {
    assert ([x] + t)[1..] == t;
  }

  lemma {:induction false} ConsSplit<T>(a: seq<T>, x: seq<T>)
    requires |a| > 0
    ensures a + x == [a[0]] + (a[1..] + x)
  {
    assert a == [a[0]] + a[1..];
  }

  lemma {:induction false} KeysTail(d: Dict, key: string)
    requires |d| > 0 && key !in Keys(d)
    ensures key !in Keys(d[1..]) && d[0].0 != key
  {
    assert Keys(d) == [d[0].0] + Keys(d[1..]);
  }

  /** Putting a key that `a` lacks into `a + b` leaves `a` alone. */
  lemma {:induction false} PutFrame(a: Dict, b: Dict, key: string, v: Option<string>)
    requires key !in Keys(a)
    ensures Put(a + b, key, v) == a + Put(b, key, v)
    decreases |a|
  {
    if |a| == 0 {
      assert a + b == b;
    } else {
      KeysTail(a, key);
      ConsSplit(a, b);
      PutCons(a[0], a[1..] + b, key, v);
      PutFrame(a[1..], b, key, v);
      ConsSplit(a, Put(b, key, v));
    }
  }

  /** Merging pairs none of whose keys `a` has into `a + b` leaves `a` alone. */
  lemma {:induction false} MergeFrame(a: Dict, b: Dict, e: Dict)
    requires forall i :: 0 <= i < |e| ==> e[i].0 !in Keys(a)
    ensures Merge(a + b, e) == a + Merge(b, e)
    decreases |e|
  {
    if |e| > 0 {
      PutFrame(a, b, e[0].0, e[0].1);
      MergeFrame(a, Put(b, e[0].0, e[0].1), e[1..]);
    }
  }

  /** Merging pairs with fresh, distinct keys appends them. */
  lemma {:induction false} MergeFresh(d: Dict, e: Dict)
    requires Distinct(Keys(d + e))
    ensures Merge(d, e) == d + e
    decreases |e|
  {
    if |e| > 0 {
      forall i | 0 <= i < |d|
        ensures Keys(d)[i] != e[0].0
      {
        assert Keys(d + e)[i] == Keys(d)[i];
        assert Keys(d + e)[|d|] == e[0].0;
      }
      assert e[0].0 !in Keys(d);
      assert Put(d, e[0].0, e[0].1) == d + [e[0]];
      assert d + [e[0]] + e[1..] == d + e;
      assert Merge(d, e) == Merge(d + [e[0]], e[1..]);
      MergeFresh(d + [e[0]], e[1..]);
    }
  }

  lemma {:induction false} DistinctTail<T>(s: seq<T>)
    requires |s| > 0 && Distinct(s)
    ensures Distinct(s[1..]) && s[0] !in s[1..]
  {
    assert s == [s[0]] + s[1..];
    DistinctConcat([s[0]], s[1..]);
  }

  /** After `d.update(e)` with distinct keys in `e`, a key of `e` has its
      value from `e` and any other key its value from `d`. */
  lemma {:induction false} MergeLookup(d: Dict, e: Dict, key: string)
    requires Distinct(Keys(e))
    ensures Lookup(Merge(d, e), key) == if key in Keys(e) then Lookup(e, key) else Lookup(d, key)
    decreases |e|
  {
    if |e| > 0 {
      DistinctTail(Keys(e));
      assert Keys(e)[1..] == Keys(e[1..]);
      MergeLookup(Put(d, e[0].0, e[0].1), e[1..], key);
      PutLookup(d, e[0].0, e[0].1, key);
    }
  }

  // ------------------------------------------------------------ skeleton

  /** What an entry leaves in its directory's dict by the end of the walk:
      a `None` placeholder for a kept file, a subdirectory's full result. */
  function SkelItem(item: Item): Dict
  {
    match item
    case FileItem(name, path, _) => if IsBinary(name) then [] else [(path, None)]
    case DirItem(_, sub) => Expected(sub)
    case OtherItem(_, _) => []
  }

  /** The download task an entry adds: one for a kept file. */
  function OwnItem(item: Item): seq<(string, Download)>
  {
    match item
    case FileItem(name, path, dl) => if IsBinary(name) then [] else [(path, dl)]
    case DirItem(_, _) => []
    case OtherItem(_, _) => []
  }

  /** What a directory's walk has built by its end: a `None` placeholder for
      each of its own kept files and each subdirectory's full result. */
  function SkelFrom(l: Listing, k: nat): Dict
    requires l.Directory? && k <= |l.items|
    decreases |l.items| - k
  {
    if k == |l.items| then [] else SkelItem(l.items[k]) + SkelFrom(l, k + 1)
  }

  /** The download tasks of a directory's own kept files, in order. */
  function OwnFrom(l: Listing, k: nat): seq<(string, Download)>
    requires l.Directory? && k <= |l.items|
    decreases |l.items| - k
  {
    if k == |l.items| then [] else OwnItem(l.items[k]) + OwnFrom(l, k + 1)
  }

  lemma {:induction false} KeepAllAppend(a: seq<FileEntry>, b: seq<FileEntry>)
    ensures KeepAll(a + b) == KeepAll(a) + KeepAll(b)
    decreases |a|
  {
    if |a| == 0 {
      assert a + b == b;
    } else {
      assert (a + b)[1..] == a[1..] + b;
      KeepAllAppend(a[1..], b);
    }
  }

  /** The reference result splits at each entry of a directory. */
  lemma {:induction false} ExpectedStep(l: Listing, k: nat)
    requires l.Directory? && k < |l.items|
    ensures ExpectedFrom(l, k) == ItemExpected(l.items[k]) + ExpectedFrom(l, k + 1)
  {
    var head := match l.items[k]
                case FileItem(name, path, dl) => [Listed(name, path, dl)]
                case DirItem(_, sub) => Entries(sub)
                case OtherItem(_, _) => [];
    KeepAllAppend(head, EntriesFrom(l, k + 1));
    if l.items[k].FileItem? {
      assert head[1..] == [];
    }
  }

  /** What one entry adds to the reference result. */
  function ItemExpected(item: Item): Dict
  {
    match item
    case FileItem(name, path, dl) => if IsBinary(name) then [] else [(path, DownloadValue(dl))]
    case DirItem(_, sub) => Expected(sub)
    case OtherItem(_, _) => []
  }

  /** Every own task's path is a key of the reference result. */
  lemma {:induction false} OwnKeys(l: Listing, k: nat)
    requires l.Directory? && k <= |l.items|
    ensures forall i :: 0 <= i < |OwnFrom(l, k)| ==> OwnFrom(l, k)[i].0 in Keys(ExpectedFrom(l, k))
    decreases |l.items| - k
  {
    if k < |l.items| {
      ExpectedStep(l, k);
      OwnKeys(l, k + 1);
      var item := l.items[k];
      KeysAppend(ItemExpected(item), ExpectedFrom(l, k + 1));
      if item.FileItem? && !IsBinary(item.name) {
        assert OwnItem(item) == [(item.path, item.download)];
        assert Keys(ItemExpected(item)) == [item.path];
      } else {
        assert OwnItem(item) == [];
      }
    }
  }

  /** One step of the walk, when the entry's keys are fresh and a
      subdirectory fetches to its reference result. */
  lemma {:induction false} WalkStep(l: Listing, k: nat, files: Dict, pending: seq<(string, Download)>, mode: Mode)
    requires l.Directory? && k < |l.items|
    requires l.items[k].DirItem? ==> FetchDir(l.items[k].listing, mode) == Success(Expected(l.items[k].listing))
    requires Distinct(Keys(files) + Keys(ItemExpected(l.items[k])))
    ensures Keys(SkelItem(l.items[k])) == Keys(ItemExpected(l.items[k]))
    ensures Walk(l, k, files, pending, mode)
            == Walk(l, k + 1, files + SkelItem(l.items[k]), pending + OwnItem(l.items[k]), mode)
  {
    KeysAppend(files, ItemExpected(l.items[k]));
    match l.items[k]
    case FileItem(name, path, dl) =>
      if !IsBinary(name) {
        assert Keys(ItemExpected(l.items[k])) == [path];
        DistinctConcat(Keys(files), [path]);
        assert path !in Keys(files);
      } else {
        assert files + [] == files && pending + [] == pending;
      }
    case DirItem(_, sub) =>
      MergeFresh(files, Expected(sub));
      assert pending + [] == pending;
    case OtherItem(_, _) =>
      assert files + [] == files && pending + [] == pending;
  }

  /** When every subdirectory from `k` on fetches to its reference result,
      the walk from `k` appends the skeleton and the own tasks, provided the
      keys met so far and still to come are distinct. */
  lemma {:induction false} WalkSkeleton(l: Listing, k: nat, files: Dict, pending: seq<(string, Download)>, mode: Mode)
    requires l.Directory? && k <= |l.items|
    requires forall j :: k <= j < |l.items| && l.items[j].DirItem? ==>
               FetchDir(l.items[j].listing, mode) == Success(Expected(l.items[j].listing))
    requires Distinct(Keys(files) + Keys(ExpectedFrom(l, k)))
    ensures Walk(l, k, files, pending, mode) == Success((files + SkelFrom(l, k), pending + OwnFrom(l, k)))
    decreases |l.items| - k
  {
    if k == |l.items| {
      assert files + [] == files && pending + [] == pending;
    } else {
      var item := l.items[k];
      WalkKeys(l, k, files);
      WalkStep(l, k, files, pending, mode);
      WalkSkeleton(l, k + 1, files + SkelItem(item), pending + OwnItem(item), mode);
      Assoc(files, SkelItem(item), SkelFrom(l, k + 1));
      Assoc(pending, OwnItem(item), OwnFrom(l, k + 1));
    }
  }

  lemma {:induction false} Assoc<T>(a: seq<T>, b: seq<T>, c: seq<T>)
    ensures a + b + c == a + (b + c)
  {
  }

  /** The distinctness the walk needs before and after one entry. */
  lemma {:induction false} WalkKeys(l: Listing, k: nat, files: Dict)
    requires l.Directory? && k < |l.items|
    requires Distinct(Keys(files) + Keys(ExpectedFrom(l, k)))
    ensures Distinct(Keys(files) + Keys(ItemExpected(l.items[k])))
    ensures Keys(SkelItem(l.items[k])) == Keys(ItemExpected(l.items[k]))
    ensures Distinct(Keys(files + SkelItem(l.items[k])) + Keys(ExpectedFrom(l, k + 1)))
  {
    var item := l.items[k];
    var eh := ItemExpected(item);
    var rest := ExpectedFrom(l, k + 1);
    ExpectedStep(l, k);
    KeysAppend(eh, rest);
    Assoc(Keys(files), Keys(eh), Keys(rest));
    DistinctConcat(Keys(files) + Keys(eh), Keys(rest));
    assert Keys(SkelItem(item)) == Keys(eh);
    KeysAppend(files, SkelItem(item));
  }

  /** A placeholder at the front receives its own task's result. */
  lemma {:induction false} FillHead(path: string, v: Option<string>, skel: Dict, own: Dict)
    requires forall i :: 0 <= i < |own| ==> own[i].0 != path
    ensures Merge([(path, None)] + skel, [(path, v)] + own) == [(path, v)] + Merge(skel, own)
  {
    assert ([(path, v)] + own)[1..] == own;
    assert Put([(path, None)] + skel, path, v) == [(path, v)] + skel;
    MergeFrame([(path, v)], skel, own);
  }

  /** Giving each own task's result to its own path turns the skeleton into
      the reference result. */
  lemma {:induction false} FillSkeleton(l: Listing, k: nat)
    requires l.Directory? && k <= |l.items|
    requires Distinct(Keys(ExpectedFrom(l, k)))
    ensures Merge(SkelFrom(l, k), Assignments(OwnFrom(l, k))) == ExpectedFrom(l, k)
    decreases |l.items| - k
  {
    if k < |l.items| {
      ExpectedStep(l, k);
      var eh := ItemExpected(l.items[k]);
      var rest := ExpectedFrom(l, k + 1);
      KeysAppend(eh, rest);
      DistinctConcat(Keys(eh), Keys(rest));
      FillSkeleton(l, k + 1);
      OwnKeys(l, k + 1);
      var own := Assignments(OwnFrom(l, k + 1));
      var skel := SkelFrom(l, k + 1);
      assert forall i :: 0 <= i < |own| ==> own[i].0 !in Keys(eh) by {
        forall i | 0 <= i < |own|
          ensures own[i].0 !in Keys(eh)
        {
          assert own[i].0 == OwnFrom(l, k + 1)[i].0;
        }
      }
      FillStep(l, k, own, skel);
    }
  }

  lemma {:induction false} FillStep(l: Listing, k: nat, own: Dict, skel: Dict)
    requires l.Directory? && k < |l.items|
    requires own == Assignments(OwnFrom(l, k + 1)) && skel == SkelFrom(l, k + 1)
    requires forall i :: 0 <= i < |own| ==> own[i].0 !in Keys(ItemExpected(l.items[k]))
    ensures Merge(SkelFrom(l, k), Assignments(OwnFrom(l, k))) == ItemExpected(l.items[k]) + Merge(skel, own)
  {
    FillItem(l.items[k], skel, OwnFrom(l, k + 1));
  }

  /** One entry's placeholder, if any, receives its own task's result. */
  lemma {:induction false} FillItem(item: Item, skel: Dict, tasks: seq<(string, Download)>)
    requires forall i :: 0 <= i < |tasks| ==> tasks[i].0 !in Keys(ItemExpected(item))
    ensures Merge(SkelItem(item) + skel, Assignments(OwnItem(item) + tasks))
            == ItemExpected(item) + Merge(skel, Assignments(tasks))
  {
    var own := Assignments(tasks);
    AssignmentsPaths(tasks);
    match item
    case FileItem(name, path, dl) =>
      if !IsBinary(name) {
        assert Keys(ItemExpected(item)) == [path];
        AssignmentsCons((path, dl), tasks);
        FillHead(path, DownloadValue(dl), skel, own);
      } else {
        assert SkelItem(item) + skel == skel && OwnItem(item) + tasks == tasks;
      }
    case DirItem(_, sub) =>
      assert OwnItem(item) + tasks == tasks;
      MergeFrame(Expected(sub), skel, own);
    case OtherItem(_, _) =>
      assert SkelItem(item) + skel == skel && OwnItem(item) + tasks == tasks;
  }

  lemma {:induction false} AssignmentsPaths(tasks: seq<(string, Download)>)
    ensures forall i :: 0 <= i < |Assignments(tasks)| ==> Assignments(tasks)[i].0 == tasks[i].0
  {
    forall i | 0 <= i < |Assignments(tasks)|
      ensures Assignments(tasks)[i].0 == tasks[i].0
    {
      assert Assignments(tasks)[i] == (Paths(tasks)[i], Results(tasks)[i]);
    }
  }

  lemma {:induction false} AssignmentsCons(x: (string, Download), tasks: seq<(string, Download)>)
    ensures Assignments([x] + tasks) == [(x.0, DownloadValue(x.1))] + Assignments(tasks)
  {
    var a, t := Assignments([x] + tasks), [x] + tasks;
    assert |a| == |t|;
    forall i | 0 <= i < |a|
      ensures a[i] == ([(x.0, DownloadValue(x.1))] + Assignments(tasks))[i]
    {
      assert a[i] == (Paths(t)[i], Results(t)[i]);
      if i > 0 {
        assert t[i] == tasks[i - 1];
        assert Assignments(tasks)[i - 1] == (Paths(tasks)[i - 1], Results(tasks)[i - 1]);
      }
    }
  }

  /** Facts about a directory's listing carry over to each subdirectory. */
  lemma {:induction false} SubdirFacts(l: Listing, k: nat, j: nat)
    requires l.Directory? && k <= j < |l.items| && l.items[j].DirItem?
    ensures FirstFailureFrom(l, k).None? ==> FirstFailure(l.items[j].listing).None?
    ensures Distinct(Keys(ExpectedFrom(l, k))) ==> Distinct(Keys(Expected(l.items[j].listing)))
    ensures NonePaths(ExpectedFrom(l, k)) == [] ==> NonePaths(Expected(l.items[j].listing)) == []
    decreases j - k
  {
    ExpectedStep(l, k);
    var eh := ItemExpected(l.items[k]);
    var rest := ExpectedFrom(l, k + 1);
    KeysAppend(eh, rest);
    DistinctConcat(Keys(eh), Keys(rest));
    NonePathsAppend(eh, rest);
    if k < j {
      SubdirFacts(l, k + 1, j);
    }
  }

  lemma {:induction false} NonePathsAppend(a: Dict, b: Dict)
    ensures NonePaths(a + b) == NonePaths(a) + NonePaths(b)
    decreases |a|
  {
    if |a| == 0 {
      assert a + b == b;
    } else {
      var head := if a[0].1.None? then [a[0].0] else [];
      assert (a + b)[0] == a[0] && (a + b)[1..] == a[1..] + b;
      assert NonePaths(a + b) == head + NonePaths(a[1..] + b);
      NonePathsAppend(a[1..], b);
      assert NonePaths(a) == head + NonePaths(a[1..]);
    }
  }

  /** With the corrected reassembly, a tree with no failed listing and
      distinct kept paths fetches to the reference result: every kept file
      once, in discovery order, with its own download. */
  lemma {:induction false} CorrectedFetch(l: Listing)
    requires FirstFailure(l).None?
    requires Distinct(Keys(Expected(l)))
    ensures FetchDir(l, ZipByPath) == Success(Expected(l))
    decreases l
  {
    match l
    case SingleFile(path, dl) =>
      assert Entries(l) == [Lone(path, dl)];
      assert Entries(l)[1..] == [];
      assert KeepAll(Entries(l)[1..]) == [];
      assert EntryPair(Lone(path, dl)) == (path, DownloadValue(dl));
      assert Expected(l) == if Kept(Lone(path, dl)) then [(path, DownloadValue(dl))] else [];
    case Directory(items) =>
      forall j | 0 <= j < |items| && items[j].DirItem?
        ensures FetchDir(items[j].listing, ZipByPath) == Success(Expected(items[j].listing))
      {
        SubdirFacts(l, 0, j);
        CorrectedFetch(items[j].listing);
      }
      assert Keys([]) + Keys(ExpectedFrom(l, 0)) == Keys(ExpectedFrom(l, 0));
      WalkSkeleton(l, 0, [], [], ZipByPath);
      FillSkeleton(l, 0);
      assert [] + SkelFrom(l, 0) == SkelFrom(l, 0);
      assert [] + OwnFrom(l, 0) == OwnFrom(l, 0);
  }

  // ---------------------------------------------------------- as written

  function Paths(tasks: seq<(string, Download)>): (ps: seq<string>)
    ensures |ps| == |tasks|
    ensures forall i :: 0 <= i < |tasks| ==> ps[i] == tasks[i].0
  {
    seq(|tasks|, i requires 0 <= i < |tasks| => tasks[i].0)
  }

  /** The loop as written runs out of results exactly when more keys hold
      `None` than there are results, and then raises `IndexError`. */
  lemma {:induction false} ScanFailsIff(d: Dict, rs: seq<Option<string>>)
    ensures Scan(d, rs).Failure? <==> |NonePaths(d)| > |rs|
    ensures Scan(d, rs).Failure? ==> Scan(d, rs).error == IndexOutOfRange
    decreases |d|
  {
    if |d| > 0 {
      if d[0].1.None? {
        if |rs| > 0 {
          ScanFailsIff(d[1..], rs[1..]);
        }
      } else {
        ScanFailsIff(d[1..], rs);
      }
    }
  }

  lemma {:induction false} NonePathsInKeys(d: Dict)
    ensures forall i :: 0 <= i < |NonePaths(d)| ==> NonePaths(d)[i] in Keys(d)
    decreases |d|
  {
    if |d| > 0 {
      NonePathsInKeys(d[1..]);
      assert Keys(d) == [d[0].0] + Keys(d[1..]);
    }
  }

  /** When the keys holding `None` are exactly the tasks' paths, in task
      order, the loop as written gives every file its own task's result,
      just as the corrected reassembly does. */
  lemma {:induction false} ScanAgrees(d: Dict, tasks: seq<(string, Download)>)
    requires Distinct(Keys(d))
    requires NonePaths(d) == Paths(tasks)
    ensures Scan(d, Results(tasks)) == Success(Merge(d, Assignments(tasks)))
    decreases |d|
  {
    if |d| > 0 {
      ScanTail(d, tasks);
      var t := if d[0].1.None? then tasks[1..] else tasks;
      ScanAgrees(d[1..], t);
      ScanHead(d, tasks, t);
    }
  }

  lemma {:induction false} ScanTail(d: Dict, tasks: seq<(string, Download)>)
    requires |d| > 0 && Distinct(Keys(d))
    requires NonePaths(d) == Paths(tasks)
    ensures d[0].1.None? ==> |tasks| > 0 && tasks[0].0 == d[0].0
    ensures Distinct(Keys(d[1..]))
    ensures var t := if d[0].1.None? then tasks[1..] else tasks;
            NonePaths(d[1..]) == Paths(t) && forall i :: 0 <= i < |t| ==> t[i].0 != d[0].0
  {
    DistinctTail(Keys(d));
    assert Keys(d)[1..] == Keys(d[1..]);
    NonePathsInKeys(d[1..]);
    if d[0].1.None? {
      assert Paths(tasks)[1..] == Paths(tasks[1..]);
    }
  }

  lemma {:induction false} ScanHead(d: Dict, tasks: seq<(string, Download)>, t: seq<(string, Download)>)
    requires |d| > 0
    requires d[0].1.None? ==> |tasks| > 0 && tasks[0].0 == d[0].0
    requires t == if d[0].1.None? then tasks[1..] else tasks
    requires forall i :: 0 <= i < |t| ==> t[i].0 != d[0].0
    requires Scan(d[1..], Results(t)) == Success(Merge(d[1..], Assignments(t)))
    ensures Scan(d, Results(tasks)) == Success(Merge(d, Assignments(tasks)))
  {
    ConsSplit(d, []);
    if d[0].1.None? {
      ScanHeadPlaceholder(d, tasks);
    } else {
      var own := Assignments(t);
      assert Keys([d[0]]) == [d[0].0];
      assert forall i :: 0 <= i < |own| ==> own[i].0 !in Keys([d[0]]);
      assert d == [d[0]] + d[1..];
      MergeFrame([d[0]], d[1..], own);
    }
  }

  lemma {:induction false} ScanHeadPlaceholder(d: Dict, tasks: seq<(string, Download)>)
    requires |d| > 0 && d[0].1.None? && |tasks| > 0 && tasks[0].0 == d[0].0
    requires forall i :: 1 <= i < |tasks| ==> tasks[i].0 != d[0].0
    requires Scan(d[1..], Results(tasks[1..])) == Success(Merge(d[1..], Assignments(tasks[1..])))
    ensures Scan(d, Results(tasks)) == Success(Merge(d, Assignments(tasks)))
  {
    var own := Assignments(tasks[1..]);
    var v := DownloadValue(tasks[0].1);
    assert Results(tasks[1..]) == Results(tasks)[1..];
    assert Assignments(tasks)[1..] == own;
    assert d == [d[0]] + d[1..];
    assert Put(d, d[0].0, v) == [(d[0].0, v)] + d[1..];
    MergeFrame([(d[0].0, v)], d[1..], own);
  }

  /** The skeleton has the keys of the reference result. */
  lemma {:induction false} SkelKeys(l: Listing, k: nat)
    requires l.Directory? && k <= |l.items|
    ensures Keys(SkelFrom(l, k)) == Keys(ExpectedFrom(l, k))
    decreases |l.items| - k
  {
    if k < |l.items| {
      var item := l.items[k];
      ExpectedStep(l, k);
      SkelKeys(l, k + 1);
      KeysAppend(SkelItem(item), SkelFrom(l, k + 1));
      KeysAppend(ItemExpected(item), ExpectedFrom(l, k + 1));
      assert Keys(SkelItem(item)) == Keys(ItemExpected(item));
    }
  }

  /** Every subdirectory of `l` fetched without a failed download. */
  predicate SubdirectoriesComplete(l: Listing)
  {
    l.Directory? ==>
      forall j :: 0 <= j < |l.items| && l.items[j].DirItem? ==> NonePaths(Expected(l.items[j].listing)) == []
  }

  /** Without `None` in the subdirectories' results, the only keys still
      holding `None` at the end of the walk are the own placeholders. */
  lemma {:induction false} NonePathsSkel(l: Listing, k: nat)
    requires l.Directory? && k <= |l.items|
    requires forall j :: k <= j < |l.items| && l.items[j].DirItem? ==> NonePaths(Expected(l.items[j].listing)) == []
    ensures NonePaths(SkelFrom(l, k)) == Paths(OwnFrom(l, k))
    decreases |l.items| - k
  {
    if k < |l.items| {
      var item := l.items[k];
      NonePathsSkel(l, k + 1);
      NonePathsAppend(SkelItem(item), SkelFrom(l, k + 1));
      SkelItemNones(item);
      PathsAppend(OwnItem(item), OwnFrom(l, k + 1));
    }
  }

  /** An entry's placeholders are its own tasks' paths, when a subdirectory
      entry's result holds no `None`. */
  lemma {:induction false} SkelItemNones(item: Item)
    requires item.DirItem? ==> NonePaths(Expected(item.listing)) == []
    ensures NonePaths(SkelItem(item)) == Paths(OwnItem(item))
  {
    match item
    case FileItem(name, path, _) =>
      if !IsBinary(name) {
        assert NonePaths(SkelItem(item)) == [path] + NonePaths([]);
      }
    case DirItem(_, _) =>
    case OtherItem(_, _) =>
  }

  lemma {:induction false} PathsAppend(a: seq<(string, Download)>, b: seq<(string, Download)>)
    ensures Paths(a + b) == Paths(a) + Paths(b)
  {
  }

  lemma {:induction false} SkelItemCount(item: Item)
    ensures |NonePaths(SkelItem(item))| >= |OwnItem(item)|
    ensures item.DirItem? && NonePaths(Expected(item.listing)) != [] ==> |NonePaths(SkelItem(item))| > |OwnItem(item)|
  {
    if item.FileItem? && !IsBinary(item.name) {
      assert NonePaths(SkelItem(item)) == [item.path] + NonePaths([]);
    }
  }

  /** The walk leaves at least one `None` per own task, and more as soon as
      a subdirectory's result holds one. */
  lemma {:induction false} NonePathsCount(l: Listing, k: nat)
    requires l.Directory? && k <= |l.items|
    ensures |NonePaths(SkelFrom(l, k))| >= |OwnFrom(l, k)|
    ensures (exists j :: k <= j < |l.items| && l.items[j].DirItem? && NonePaths(Expected(l.items[j].listing)) != [])
            ==> |NonePaths(SkelFrom(l, k))| > |OwnFrom(l, k)|
    decreases |l.items| - k
  {
    if k < |l.items| {
      var item := l.items[k];
      NonePathsCount(l, k + 1);
      NonePathsAppend(SkelItem(item), SkelFrom(l, k + 1));
      assert SkelFrom(l, k) == SkelItem(item) + SkelFrom(l, k + 1);
      assert OwnFrom(l, k) == OwnItem(item) + OwnFrom(l, k + 1);
      SkelItemCount(item);
      if exists j :: k <= j < |l.items| && l.items[j].DirItem? && NonePaths(Expected(l.items[j].listing)) != [] {
        var j :| k <= j < |l.items| && l.items[j].DirItem? && NonePaths(Expected(l.items[j].listing)) != [];
        if j > k {
          assert k + 1 <= j < |l.items| && l.items[j].DirItem? && NonePaths(Expected(l.items[j].listing)) != [];
        }
      }
    }
  }

  /** A directory whose own reassembly loop runs out of results: it has a
      kept file of its own, so the loop runs, and the result of one of its
      subdirectories holds a `None`, which takes a result meant for one of
      the directory's own files. */
  predicate BreaksHere(l: Listing)
  {
    && l.Directory?
    && (exists i :: 0 <= i < |l.items| && l.items[i].FileItem? && !IsBinary(l.items[i].name))
    && (exists j :: 0 <= j < |l.items| && l.items[j].DirItem? && NonePaths(Expected(l.items[j].listing)) != [])
  }

  /** Some directory of the tree, `l` itself or one below it, breaks. */
  predicate Breaks(l: Listing)
    decreases l, if l.Directory? then |l.items| + 1 else 0
  {
    l.Directory? && (BreaksHere(l) || BreaksFrom(l, 0))
  }

  predicate BreaksFrom(l: Listing, k: nat)
    requires l.Directory? && k <= |l.items|
    decreases l, |l.items| - k
  {
    k < |l.items| && ((l.items[k].DirItem? && Breaks(l.items[k].listing)) || BreaksFrom(l, k + 1))
  }

  lemma {:induction false} BreaksFromIff(l: Listing, k: nat)
    requires l.Directory? && k <= |l.items|
    ensures BreaksFrom(l, k) <==>
              exists j :: k <= j < |l.items| && l.items[j].DirItem? && Breaks(l.items[j].listing)
    decreases |l.items| - k
  {
    if k < |l.items| {
      BreaksFromIff(l, k + 1);
    }
  }

  /** A directory has own tasks exactly when it lists a non-binary file. */
  lemma {:induction false} OwnNonEmpty(l: Listing, k: nat)
    requires l.Directory? && k <= |l.items|
    ensures |OwnFrom(l, k)| > 0 <==>
              exists i :: k <= i < |l.items| && l.items[i].FileItem? && !IsBinary(l.items[i].name)
    decreases |l.items| - k
  {
    if k < |l.items| {
      OwnNonEmpty(l, k + 1);
      var item := l.items[k];
      assert |OwnItem(item)| > 0 <==> item.FileItem? && !IsBinary(item.name);
    }
  }

  /** The reference result holds a `None` exactly when a kept file's
      download failed. */
  lemma {:induction false} KeepAllNone(es: seq<FileEntry>)
    ensures NonePaths(KeepAll(es)) != [] <==> exists j :: 0 <= j < |es| && Kept(es[j]) && es[j].download.FetchFailed?
    decreases |es|
  {
    if |es| > 0 {
      var head := if Kept(es[0]) then [EntryPair(es[0])] else [];
      KeepAllNone(es[1..]);
      NonePathsAppend(head, KeepAll(es[1..]));
      assert NonePaths(head) != [] <==> Kept(es[0]) && es[0].download.FetchFailed?;
      if exists j :: 0 <= j < |es| && Kept(es[j]) && es[j].download.FetchFailed? {
        var j :| 0 <= j < |es| && Kept(es[j]) && es[j].download.FetchFailed?;
        if j > 0 {
          assert es[1..][j - 1] == es[j];
        }
      }
      if exists j :: 0 <= j < |es[1..]| && Kept(es[1..][j]) && es[1..][j].download.FetchFailed? {
        var j :| 0 <= j < |es[1..]| && Kept(es[1..][j]) && es[1..][j].download.FetchFailed?;
        assert es[j + 1] == es[1..][j];
      }
    }
  }

  /** A broken tree has a `None` in its reference result. */
  lemma {:induction false} BreaksHoldsNone(l: Listing)
    ensures Breaks(l) ==> NonePaths(Expected(l)) != []
    decreases l
  {
    if Breaks(l) {
      var j: nat;
      if BreaksHere(l) {
        j :| 0 <= j < |l.items| && l.items[j].DirItem? && NonePaths(Expected(l.items[j].listing)) != [];
      } else {
        BreaksFromIff(l, 0);
        j :| 0 <= j < |l.items| && l.items[j].DirItem? && Breaks(l.items[j].listing);
        BreaksHoldsNone(l.items[j].listing);
      }
      SubdirFacts(l, 0, j);
      assert Expected(l) == ExpectedFrom(l, 0);
    }
  }

  /** The walk as written aborts with `IndexError` on reaching a
      subdirectory `j` that breaks, when every subdirectory up to `j` fetches
      to its reference result or to that error; what comes after `j` is
      never listed. */
  lemma {:induction false} WalkBreaks(l: Listing, k: nat, j: nat, files: Dict, pending: seq<(string, Download)>)
    requires l.Directory? && k <= j < |l.items|
    requires l.items[j].DirItem? && Breaks(l.items[j].listing)
    requires forall i :: k <= i <= j && l.items[i].DirItem? ==>
               FetchDir(l.items[i].listing, ScanForPlaceholders)
               == if Breaks(l.items[i].listing) then Failure(IndexOutOfRange) else Success(Expected(l.items[i].listing))
    ensures Walk(l, k, files, pending, ScanForPlaceholders) == Failure(IndexOutOfRange)
    decreases j - k
  {
    match l.items[k]
    case FileItem(name, path, dl) =>
      if IsBinary(name) {
        WalkBreaks(l, k + 1, j, files, pending);
      } else {
        WalkBreaks(l, k + 1, j, Put(files, path, None), pending + [(path, dl)]);
      }
    case DirItem(_, sub) =>
      if !Breaks(sub) {
        WalkBreaks(l, k + 1, j, Merge(files, Expected(sub)), pending);
      }
    case OtherItem(_, _) =>
      WalkBreaks(l, k + 1, j, files, pending);
  }

  /** The loop as written aborts with `IndexError` as soon as the walk meets
      a subdirectory that breaks, even when a later listing request would
      have failed: that request is never made. */
  lemma {:induction false} BreakBeforeLaterFailure(l: Listing, j: nat)
    requires l.Directory? && j < |l.items| && l.items[j].DirItem?
    requires Distinct(Keys(Expected(l)))
    requires forall i :: 0 <= i <= j && l.items[i].DirItem? ==> FirstFailure(l.items[i].listing).None?
    requires Breaks(l.items[j].listing)
    ensures FetchDir(l, ScanForPlaceholders) == Failure(IndexOutOfRange)
  {
    forall i | 0 <= i <= j && l.items[i].DirItem?
      ensures FetchDir(l.items[i].listing, ScanForPlaceholders)
              == if Breaks(l.items[i].listing) then Failure(IndexOutOfRange) else Success(Expected(l.items[i].listing))
    {
      SubdirFacts(l, 0, i);
      AsWrittenFetch(l.items[i].listing);
    }
    WalkBreaks(l, 0, j, [], []);
  }

  /** When every subdirectory fetches to its reference result, the loop as
      written gives the reference result, unless the directory breaks, and
      then it raises `IndexError`. */
  lemma {:induction false} ReassembleAsWritten(l: Listing)
    requires l.Directory? && FirstFailure(l).None?
    requires Distinct(Keys(Expected(l)))
    requires forall j :: 0 <= j < |l.items| && l.items[j].DirItem? ==>
               FetchDir(l.items[j].listing, ScanForPlaceholders) == Success(Expected(l.items[j].listing))
    ensures FetchDir(l, ScanForPlaceholders) == if BreaksHere(l) then Failure(IndexOutOfRange) else Success(Expected(l))
  {
    assert Expected(l) == ExpectedFrom(l, 0);
    assert Keys([]) + Keys(ExpectedFrom(l, 0)) == Keys(ExpectedFrom(l, 0));
    WalkSkeleton(l, 0, [], [], ScanForPlaceholders);
    var skel, own := SkelFrom(l, 0), OwnFrom(l, 0);
    assert [] + skel == skel && [] + own == own;
    assert Walk(l, 0, [], [], ScanForPlaceholders) == Success((skel, own));
    OwnNonEmpty(l, 0);
    FillSkeleton(l, 0);
    if |own| == 0 {
      assert Assignments(own) == [];
    } else if exists j :: 0 <= j < |l.items| && l.items[j].DirItem? && NonePaths(Expected(l.items[j].listing)) != [] {
      NonePathsCount(l, 0);
      ScanFailsIff(skel, Results(own));
    } else {
      SkelKeys(l, 0);
      NonePathsSkel(l, 0);
      ScanAgrees(skel, own);
    }
  }

  /** The fetch as written, completely: on a tree without a failed listing
      and with distinct paths, it gives the reference result unless some
      directory breaks, and then it raises `IndexError`. */
  lemma {:induction false} AsWrittenFetch(l: Listing)
    requires FirstFailure(l).None?
    requires Distinct(Keys(Expected(l)))
    ensures FetchDir(l, ScanForPlaceholders) == if Breaks(l) then Failure(IndexOutOfRange) else Success(Expected(l))
    decreases l
  {
    match l
    case SingleFile(_, _) =>
      CorrectedFetch(l);
    case Directory(items) =>
      forall j | 0 <= j < |items| && items[j].DirItem?
        ensures FetchDir(items[j].listing, ScanForPlaceholders)
                == if Breaks(items[j].listing) then Failure(IndexOutOfRange) else Success(Expected(items[j].listing))
      {
        SubdirFacts(l, 0, j);
        AsWrittenFetch(items[j].listing);
      }
      BreaksFromIff(l, 0);
      if BreaksFrom(l, 0) {
        var j :| 0 <= j < |items| && items[j].DirItem? && Breaks(items[j].listing);
        WalkBreaks(l, 0, j, [], []);
      } else {
        ReassembleAsWritten(l);
      }
  }

  /** The loop as written agrees with the corrected reassembly whenever no
      subdirectory's result holds `None`; failed downloads in the directory
      itself are harmless. */
  lemma {:induction false} AsWrittenAgrees(l: Listing)
    requires FirstFailure(l).None?
    requires Distinct(Keys(Expected(l)))
    requires SubdirectoriesComplete(l)
    ensures FetchDir(l, ScanForPlaceholders) == Success(Expected(l))
    ensures FetchDir(l, ZipByPath) == Success(Expected(l))
  {
    CorrectedFetch(l);
    AsWrittenFetch(l);
    if l.Directory? {
      forall j | 0 <= j < |l.items| && l.items[j].DirItem?
        ensures !Breaks(l.items[j].listing)
      {
        BreaksHoldsNone(l.items[j].listing);
      }
      BreaksFromIff(l, 0);
    }
  }

  /** A tree whose result holds no `None` at all is fetched correctly by the
      loop as written. */
  lemma {:induction false} AsWrittenComplete(l: Listing)
    requires FirstFailure(l).None?
    requires Distinct(Keys(Expected(l)))
    requires NonePaths(Expected(l)) == []
    ensures FetchDir(l, ScanForPlaceholders) == Success(Expected(l))
  {
    BreaksHoldsNone(l);
    AsWrittenFetch(l);
  }

  /** The defect of the loop as written: a directory with a kept file of its
      own, one of whose subdirectories at any depth below holds a failed
      download, aborts with `IndexError`, where the corrected reassembly
      succeeds. */
  lemma {:induction false} NestedFailureBreaksScan(l: Listing, j: nat)
    requires l.Directory? && j < |l.items|
    requires FirstFailure(l).None?
    requires Distinct(Keys(Expected(l)))
    requires exists i :: 0 <= i < |l.items| && l.items[i].FileItem? && !IsBinary(l.items[i].name)
    requires l.items[j].DirItem? && NonePaths(Expected(l.items[j].listing)) != []
    ensures FetchDir(l, ScanForPlaceholders) == Failure(IndexOutOfRange)
    ensures FetchDir(l, ZipByPath) == Success(Expected(l))
  {
    CorrectedFetch(l);
    assert BreaksHere(l);
    AsWrittenFetch(l);
  }

  /** A name is not binary when neither of the positions where a skipped
      extension's dot would stand holds a dot. */
  lemma {:induction false} NotBinary(name: string)
    requires |name| >= 4 ==> name[|name| - 4] != '.'
    requires |name| >= 5 ==> name[|name| - 5] != '.'
    ensures !IsBinary(name)
  {
    var low := Lower(name);
    forall i | 0 <= i < |BinaryExtensions|
      ensures !EndsWith(low, BinaryExtensions[i])
    {
      var e := BinaryExtensions[i];
      assert e[0] == '.' && (|e| == 4 || |e| == 5);
      if |e| <= |low| {
        assert low[|low| - |e|..][0] == low[|low| - |e|] != '.';
      }
    }
  }

  /** A concrete tree on which the loop as written fails: the root has a
      subdirectory whose only file fails to download, then a file of its
      own. The scan hands README.md's text to src/x.py and then has no result
      left for README.md. */
  const ExampleSrc: Listing := Directory([FileItem("x.py", "src/x.py", FetchFailed("404 Not Found"))])
  const ExampleTree: Listing :=
    Directory([DirItem("src", ExampleSrc), FileItem("README.md", "README.md", Fetched("hi"))])

  /** Either way, the subdirectory on its own keeps its failed file as `None`. */
  lemma {:induction false} ExampleSrcFetch(mode: Mode)
    ensures FetchDir(ExampleSrc, mode) == Success([("src/x.py", None)])
  {
    NotBinary("x.py");
    var src := ExampleSrc;
    var srcFiles: Dict := [("src/x.py", None)];
    var srcTasks := [("src/x.py", FetchFailed("404 Not Found"))];
    assert src.items[0] == FileItem("x.py", "src/x.py", FetchFailed("404 Not Found"));
    assert Put([], "src/x.py", None) == srcFiles;
    assert [] + srcTasks == srcTasks;
    assert Walk(src, 1, srcFiles, srcTasks, mode) == Success((srcFiles, srcTasks));
    assert Walk(src, 0, [], [], mode) == Success((srcFiles, srcTasks));
    if mode == ScanForPlaceholders {
      var noResult: seq<Option<string>> := [None];
      assert Results(srcTasks) == noResult;
      assert srcFiles[1..] == [] && noResult[1..] == [];
      assert Scan(srcFiles[1..], noResult[1..]) == Success([]);
      assert [(srcFiles[0].0, noResult[0])] + [] == srcFiles;
      assert Scan(srcFiles, noResult) == Success(srcFiles);
    } else {
      assert Assignments(srcTasks) == [("src/x.py", None)];
      assert Put(srcFiles, "src/x.py", None) == srcFiles;
    }
  }

  /** Either way, the root's walk ends with two placeholders and one task. */
  lemma {:induction false} ExampleRootWalk(mode: Mode)
    ensures Walk(ExampleTree, 0, [], [], mode)
            == Success(([("src/x.py", None), ("README.md", None)], [("README.md", Fetched("hi"))]))
  {
    NotBinary("README.md");
    ExampleSrcFetch(mode);
    var srcFiles: Dict := [("src/x.py", None)];
    var rootFiles: Dict := [("src/x.py", None), ("README.md", None)];
    var rootTasks := [("README.md", Fetched("hi"))];
    assert ExampleTree.items[0] == DirItem("src", ExampleSrc);
    assert ExampleTree.items[1] == FileItem("README.md", "README.md", Fetched("hi"));
    assert Merge([], srcFiles) == srcFiles;
    assert Put(srcFiles, "README.md", None) == rootFiles;
    assert [] + rootTasks == rootTasks;
    assert Walk(ExampleTree, 2, rootFiles, rootTasks, mode) == Success((rootFiles, rootTasks));
    assert Walk(ExampleTree, 1, srcFiles, [], mode) == Success((rootFiles, rootTasks));
  }

  lemma {:induction false} NestedFailureExample()
    ensures FetchDir(ExampleTree, ScanForPlaceholders) == Failure(IndexOutOfRange)
    ensures FetchDir(ExampleTree, ZipByPath) == Success([("src/x.py", None), ("README.md", Some("hi"))])
  {
    ExampleRootWalk(ScanForPlaceholders);
    ExampleRootWalk(ZipByPath);
    var rootFiles: Dict := [("src/x.py", None), ("README.md", None)];
    var rootTasks := [("README.md", Fetched("hi"))];
    ScanFailsIff(rootFiles, Results(rootTasks));
    assert NonePaths(rootFiles) == ["src/x.py", "README.md"];
    assert Assignments(rootTasks) == [("README.md", Some("hi"))];
    assert Put(rootFiles, "README.md", Some("hi")) == [("src/x.py", None), ("README.md", Some("hi"))];
  }

  // ---------------------------------------------------------- reference

  /** Every pair of the reference result is a kept file's path with that
      file's own download. */
  lemma {:induction false} KeepAllSound(es: seq<FileEntry>, i: nat)
    requires i < |KeepAll(es)|
    ensures exists j :: 0 <= j < |es| && Kept(es[j]) && KeepAll(es)[i] == EntryPair(es[j])
    decreases |es|
  {
    var head := if Kept(es[0]) then [EntryPair(es[0])] else [];
    if i < |head| {
      assert Kept(es[0]) && KeepAll(es)[i] == EntryPair(es[0]);
    } else {
      KeepAllSound(es[1..], i - |head|);
      var j :| 0 <= j < |es[1..]| && Kept(es[1..][j]) && KeepAll(es[1..])[i - |head|] == EntryPair(es[1..][j]);
      assert es[j + 1] == es[1..][j];
    }
  }

  /** Every kept file is in the reference result with its own download. */
  lemma {:induction false} KeepAllComplete(es: seq<FileEntry>, j: nat)
    requires j < |es| && Kept(es[j])
    ensures EntryPair(es[j]) in KeepAll(es)
    decreases |es|
  {
    if j > 0 {
      KeepAllComplete(es[1..], j - 1);
    }
  }

  /** No key of the reference result is the path of a file left out, when
      paths are unique. */
  lemma {:induction false} KeepAllExcludes(es: seq<FileEntry>, j: nat)
    requires Distinct(EntryPaths(es))
    requires j < |es| && !Kept(es[j])
    ensures es[j].path !in Keys(KeepAll(es))
  {
    forall i | 0 <= i < |Keys(KeepAll(es))|
      ensures Keys(KeepAll(es))[i] != es[j].path
    {
      KeepAllSound(es, i);
      var m :| 0 <= m < |es| && Kept(es[m]) && KeepAll(es)[i] == EntryPair(es[m]);
      assert EntryPaths(es)[m] != EntryPaths(es)[j];
    }
  }

  /** Unique file paths make the reference result's keys distinct. */
  lemma {:induction false} KeepAllDistinct(es: seq<FileEntry>)
    requires Distinct(EntryPaths(es))
    ensures Distinct(Keys(KeepAll(es)))
    decreases |es|
  {
    if |es| > 0 {
      var head := if Kept(es[0]) then [EntryPair(es[0])] else [];
      var tail := KeepAll(es[1..]);
      assert EntryPaths(es) == [es[0].path] + EntryPaths(es[1..]);
      DistinctConcat([es[0].path], EntryPaths(es[1..]));
      KeepAllDistinct(es[1..]);
      KeysAppend(head, tail);
      forall i | 0 <= i < |Keys(tail)|
        ensures Keys(tail)[i] != es[0].path
      {
        KeepAllSound(es[1..], i);
        var m :| 0 <= m < |es[1..]| && Kept(es[1..][m]) && tail[i] == EntryPair(es[1..][m]);
        assert EntryPaths(es[1..])[m] == Keys(tail)[i];
      }
      DistinctConcat(Keys(head), Keys(tail));
    }
  }

  /** When `fetch_files` aborts. A failed listing request anywhere aborts
      it, and a listing error it reports is the first one. Otherwise, with
      unique paths, the loop as written raises `IndexError` exactly when
      some directory breaks, and the corrected fetch never aborts. */
  lemma {:induction false} FetchFilesFails(root: Listing, mode: Mode)
    ensures FirstFailure(root).Some? ==> FetchFiles(root, mode).Failure?
    ensures FetchFiles(root, mode).Failure? && FetchFiles(root, mode).error.ListingError? ==>
              FirstFailure(root) == Some(FetchFiles(root, mode).error.reason)
    ensures mode == ZipByPath && FirstFailure(root).Some? ==>
              FetchFiles(root, mode) == Failure(ListingError(FirstFailure(root).value))
    ensures FirstFailure(root).None? && UniquePaths(root) ==>
              (FetchFiles(root, mode).Failure? <==> mode == ScanForPlaceholders && Breaks(root))
    ensures FirstFailure(root).None? && UniquePaths(root) && FetchFiles(root, mode).Failure? ==>
              FetchFiles(root, mode).error == IndexOutOfRange
  {
    FetchDirFailure(root, mode);
    if FirstFailure(root).None? && UniquePaths(root) {
      KeepAllDistinct(Entries(root));
      CorrectedFetch(root);
      AsWrittenFetch(root);
    }
  }

  /** What `fetch_files` returns. With unique paths it succeeds exactly when
      no listing request fails and, for the loop as written, no directory
      breaks. It then maps each non-binary file at any depth, once and in
      discovery order, to its own download (`None` when that failed); a
      binary file, or a lone file without text, is never a key. */
  lemma {:induction false} FetchFilesContents(root: Listing, mode: Mode)
    requires UniquePaths(root)
    ensures FetchFiles(root, mode).Success? <==>
              FirstFailure(root).None? && !(mode == ScanForPlaceholders && Breaks(root))
    ensures FetchFiles(root, mode).Success? ==> FetchFiles(root, mode).value == KeepAll(Entries(root))
    ensures FetchFiles(root, mode).Success? ==> Distinct(Keys(FetchFiles(root, mode).value))
    ensures FetchFiles(root, mode).Success? ==>
              forall j :: 0 <= j < |Entries(root)| && Kept(Entries(root)[j]) ==>
                EntryPair(Entries(root)[j]) in FetchFiles(root, mode).value
    ensures FetchFiles(root, mode).Success? ==>
              forall j :: 0 <= j < |Entries(root)| && !Kept(Entries(root)[j]) ==>
                Entries(root)[j].path !in Keys(FetchFiles(root, mode).value)
    ensures FetchFiles(root, mode).Success? ==>
              forall i :: 0 <= i < |FetchFiles(root, mode).value| ==>
                exists j :: 0 <= j < |Entries(root)| && Kept(Entries(root)[j])
                            && FetchFiles(root, mode).value[i] == EntryPair(Entries(root)[j])
  {
    var es := Entries(root);
    FetchDirFailure(root, mode);
    KeepAllDistinct(es);
    if FirstFailure(root).None? {
      CorrectedFetch(root);
      AsWrittenFetch(root);
    }
    forall j | 0 <= j < |es| && Kept(es[j])
      ensures EntryPair(es[j]) in KeepAll(es)
    {
      KeepAllComplete(es, j);
    }
    forall j | 0 <= j < |es| && !Kept(es[j])
      ensures es[j].path !in Keys(KeepAll(es))
    {
      KeepAllExcludes(es, j);
    }
    forall i | 0 <= i < |KeepAll(es)|
      ensures exists j :: 0 <= j < |es| && Kept(es[j]) && KeepAll(es)[i] == EntryPair(es[j])
    {
      KeepAllSound(es, i);
    }
  }
}
