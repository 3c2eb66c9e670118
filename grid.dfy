/** Grid assembly: every row of a track is tagged with the composite key
    (initial mass, initial [Fe/H], step); the tagged tracks of a directory
    are concatenated and sorted by that key. */
module GridAssembly {
  import opened FilenameParser

  /** The composite row key (initial_mass, initial_met, step). */
  datatype RowKey = RowKey(initialMass: real, initialMet: real, step: nat)

  /** One row of the grid: its key and the row's columns. */
  datatype GridRow<T> = GridRow(key: RowKey, data: T)

  /** A raw track file: its name and its data rows, header line skipped. */
  datatype TrackFile<T> = TrackFile(name: string, rows: seq<T>)

  datatype GridError = BadFileName(name: string, error: ParseError) | NoTrackFiles

  /** Lexicographic order on keys: mass, then [Fe/H], then step. */
  predicate KeyLe(a: RowKey, b: RowKey)
  {
    a.initialMass < b.initialMass
    || (a.initialMass == b.initialMass
        && (a.initialMet < b.initialMet || (a.initialMet == b.initialMet && a.step <= b.step)))
  }

  /** KeyLe is a total order on keys, as the lexicographic order of the
      (initial_mass, initial_met, step) index is. */
  lemma KeyLeTotalOrder(a: RowKey, b: RowKey, c: RowKey)
    ensures KeyLe(a, a)
    ensures KeyLe(a, b) || KeyLe(b, a)
    ensures KeyLe(a, b) && KeyLe(b, a) ==> a == b
    ensures KeyLe(a, b) && KeyLe(b, c) ==> KeyLe(a, c)
  {
  }

  predicate Sorted<T>(g: seq<GridRow<T>>)
  {
    forall i, j :: 0 <= i < j < |g| ==> KeyLe(g[i].key, g[j].key)
  }

  predicate StrictlySorted<T>(g: seq<GridRow<T>>)
  {
    forall i, j :: 0 <= i < j < |g| ==> KeyLe(g[i].key, g[j].key) && g[i].key != g[j].key
  }

  predicate DistinctKeys<T>(g: seq<GridRow<T>>)
  {
    forall i, j :: 0 <= i < j < |g| ==> g[i].key != g[j].key
  }

  function KeySet<T>(g: seq<GridRow<T>>): set<RowKey>
  {
    set i | 0 <= i < |g| :: g[i].key
  }

  /** The row columns of a tagged sequence, keys dropped. */
  function Payload<T>(g: seq<GridRow<T>>): seq<T>
  {
    seq(|g|, i requires 0 <= i < |g| => g[i].data)
  }

  /** The row tagging of from_yrec: row i gets key (mass, met, i). */
  function TagRows<T>(mass: real, met: real, rows: seq<T>): seq<GridRow<T>>
  {
    seq(|rows|, i requires 0 <= i < |rows| => GridRow(RowKey(mass, met, i), rows[i]))
  }

  /** Tagging keeps every row, in order, and gives the track the steps
      0..N-1 exactly, in increasing order. */
  lemma TagRowsKeys<T>(mass: real, met: real, rows: seq<T>)
    ensures Payload(TagRows(mass, met, rows)) == rows
    ensures KeySet(TagRows(mass, met, rows)) == set s: nat | s < |rows| :: RowKey(mass, met, s)
    ensures StrictlySorted(TagRows(mass, met, rows))
  {
    var g := TagRows(mass, met, rows);
    forall k | k in (set s: nat | s < |rows| :: RowKey(mass, met, s))
      ensures k in KeySet(g)
    {
      assert g[k.step].key == k;
    }
  }

  /** Inserts x after the leading rows whose key is below x's. */
  function Insert<T>(x: GridRow<T>, s: seq<GridRow<T>>): (r: seq<GridRow<T>>)
    ensures multiset(r) == multiset(s) + multiset{x}
  {
    if s == [] then [x]
    else if KeyLe(x.key, s[0].key) then [x] + s
    else
      assert s == [s[0]] + s[1..];
      [s[0]] + Insert(x, s[1..])
  }

  /** A key below x's and below every key of s is below every key of the
      insertion. */
  lemma {:induction false} InsertLowerBound<T>(x: GridRow<T>, s: seq<GridRow<T>>, b: RowKey, strict: bool)
    requires KeyLe(b, x.key) && (strict ==> b != x.key)
    requires forall j :: 0 <= j < |s| ==> KeyLe(b, s[j].key) && (strict ==> b != s[j].key)
    ensures forall k :: 0 <= k < |Insert(x, s)| ==> KeyLe(b, Insert(x, s)[k].key) && (strict ==> b != Insert(x, s)[k].key)
  {
    if s != [] && !KeyLe(x.key, s[0].key) {
      InsertLowerBound(x, s[1..], b, strict);
    }
  }

  lemma KeySetAppend<T>(a: seq<GridRow<T>>, b: seq<GridRow<T>>)
    ensures KeySet(a + b) == KeySet(a) + KeySet(b)
  {
    var c := a + b;
    forall k | k in KeySet(c)
      ensures k in KeySet(a) + KeySet(b)
    {
      var i :| 0 <= i < |c| && c[i].key == k;
      if i >= |a| {
        assert b[i - |a|].key == k;
      }
    }
    forall k | k in KeySet(a)
      ensures k in KeySet(c)
    {
      var i :| 0 <= i < |a| && a[i].key == k;
      assert c[i].key == k;
    }
    forall k | k in KeySet(b)
      ensures k in KeySet(c)
    {
      var i :| 0 <= i < |b| && b[i].key == k;
      assert c[i + |a|].key == k;
    }
  }

  /** A head at most every key of a sorted tail gives a sorted sequence;
      strictly below every key, a strictly sorted one. */
  lemma SortedCons<T>(h: GridRow<T>, t: seq<GridRow<T>>, strict: bool)
    requires if strict then StrictlySorted(t) else Sorted(t)
    requires forall k :: 0 <= k < |t| ==> KeyLe(h.key, t[k].key) && (strict ==> h.key != t[k].key)
    ensures if strict then StrictlySorted([h] + t) else Sorted([h] + t)
  {
    var r := [h] + t;
    forall i, j | 0 <= i < j < |r|
      ensures KeyLe(r[i].key, r[j].key) && (strict ==> r[i].key != r[j].key)
    {
      assert r[j] == t[j - 1];
      if i > 0 {
        assert r[i] == t[i - 1];
      }
    }
  }

  lemma {:induction false} InsertKeys<T>(x: GridRow<T>, s: seq<GridRow<T>>)
    ensures KeySet(Insert(x, s)) == KeySet(s) + {x.key}
  {
    if s == [] {
    } else if KeyLe(x.key, s[0].key) {
      KeySetAppend([x], s);
    } else {
      InsertKeys(x, s[1..]);
      assert s == [s[0]] + s[1..];
      KeySetAppend([s[0]], s[1..]);
      KeySetAppend([s[0]], Insert(x, s[1..]));
    }
  }

  /** Insertion keeps a sequence sorted, and strictly sorted when x's key
      is new. */
  lemma {:induction false} InsertSorted<T>(x: GridRow<T>, s: seq<GridRow<T>>, strict: bool)
    requires if strict then StrictlySorted(s) && x.key !in KeySet(s) else Sorted(s)
    ensures if strict then StrictlySorted(Insert(x, s)) else Sorted(Insert(x, s))
  {
    if s == [] {
    } else if KeyLe(x.key, s[0].key) {
      assert forall j :: 0 <= j < |s| ==> s[j].key in KeySet(s);
      SortedCons(x, s, strict);
    } else {
      var tail := s[1..];
      assert forall j :: 0 <= j < |tail| ==> tail[j] == s[j + 1];
      assert strict ==> x.key !in KeySet(tail) by {
        if strict {
          assert forall j :: 0 <= j < |tail| ==> tail[j].key in KeySet(s);
        }
      }
      InsertSorted(x, tail, strict);
      InsertLowerBound(x, tail, s[0].key, strict);
      SortedCons(s[0], Insert(x, tail), strict);
    }
  }

  /** Inserting the head into the sorted rest of a sequence sorts it. */
  lemma InsertHead<T>(s: seq<GridRow<T>>, t: seq<GridRow<T>>)
    requires s != [] && Sorted(t) && multiset(t) == multiset(s[1..]) && KeySet(t) == KeySet(s[1..])
    requires DistinctKeys(s[1..]) ==> StrictlySorted(t)
    ensures Sorted(Insert(s[0], t))
    ensures multiset(Insert(s[0], t)) == multiset(s)
    ensures KeySet(Insert(s[0], t)) == KeySet(s)
    ensures DistinctKeys(s) ==> StrictlySorted(Insert(s[0], t))
  {
    assert s == [s[0]] + s[1..];
    KeySetAppend([s[0]], s[1..]);
    assert DistinctKeys(s) ==> s[0].key !in KeySet(s[1..]);
    assert DistinctKeys(s) ==> DistinctKeys(s[1..]);
    InsertSorted(s[0], t, false);
    InsertSorted(s[0], t, DistinctKeys(s));
    InsertKeys(s[0], t);
  }

  /** The sort_index of the assembled frame: a permutation of its rows in
      ascending key order, strictly ascending when no key repeats. */
  function SortIndex<T>(s: seq<GridRow<T>>): (r: seq<GridRow<T>>)
    ensures Sorted(r)
    ensures multiset(r) == multiset(s)
    ensures KeySet(r) == KeySet(s)
    ensures DistinctKeys(s) ==> StrictlySorted(r)
  {
    if s == [] then []
    else
      var t := SortIndex(s[1..]);
      InsertHead(s, t);
      Insert(s[0], t)
  }

  /** The row r alone if its key is k, otherwise nothing. */
  function Sel<T>(r: GridRow<T>, k: RowKey): seq<GridRow<T>>
  {
    if r.key == k then [r] else []
  }

  /** The rows of s with key k, in the order they appear in s. */
  function WithKey<T>(s: seq<GridRow<T>>, k: RowKey): seq<GridRow<T>>
  {
    if s == [] then [] else Sel(s[0], k) + WithKey(s[1..], k)
  }

  lemma WithKeyCons<T>(x: GridRow<T>, s: seq<GridRow<T>>, k: RowKey)
    ensures WithKey([x] + s, k) == Sel(x, k) + WithKey(s, k)
  {
    assert ([x] + s)[1..] == s;
  }

  /** Rows with different keys never both have key k. */
  lemma SelSwap<T>(a: GridRow<T>, b: GridRow<T>, rest: seq<GridRow<T>>, k: RowKey)
    requires a.key != b.key
    ensures Sel(a, k) + (Sel(b, k) + rest) == Sel(b, k) + (Sel(a, k) + rest)
  {
    if a.key == k {
      assert Sel(b, k) == [];
    } else {
      assert Sel(a, k) == [];
    }
  }

  /** Inserting x keeps the order among rows of any one key, x coming
      before the rows whose key equals its own. */
  lemma {:induction false} InsertWithKey<T>(x: GridRow<T>, s: seq<GridRow<T>>, k: RowKey)
    ensures WithKey(Insert(x, s), k) == WithKey([x] + s, k)
  {
    if s != [] && !KeyLe(x.key, s[0].key) {
      var y, t := s[0], s[1..];
      assert s == [y] + t;
      assert Insert(x, s) == [y] + Insert(x, t);
      assert x.key != y.key by {
        KeyLeTotalOrder(x.key, x.key, x.key);
      }
      InsertWithKey(x, t, k);
      WithKeyCons(y, Insert(x, t), k);
      WithKeyCons(x, t, k);
      WithKeyCons(x, s, k);
      WithKeyCons(y, t, k);
      SelSwap(y, x, WithKey(t, k), k);
    }
  }

  /** sort_index is stable: for every key, the rows with that key appear in
      the sorted sequence in the order they had before sorting. */
  lemma {:induction false} SortIndexStable<T>(s: seq<GridRow<T>>, k: RowKey)
    ensures WithKey(SortIndex(s), k) == WithKey(s, k)
  {
    if s != [] {
      SortIndexStable(s[1..], k);
      InsertWithKey(s[0], SortIndex(s[1..]), k);
      WithKeyCons(s[0], SortIndex(s[1..]), k);
      WithKeyCons(s[0], s[1..], k);
      assert s == [s[0]] + s[1..];
    }
  }

  /** The head of a sorted sequence has the least key of its rows. */
  lemma SortedHeadLeast<T>(b: seq<GridRow<T>>, x: GridRow<T>)
    requires Sorted(b) && x in multiset(b)
    ensures KeyLe(b[0].key, x.key)
  {
    assert x in b;
    var j :| 0 <= j < |b| && b[j] == x;
    if j > 0 {
      assert KeyLe(b[0].key, b[j].key);
    }
  }

  /** In a strictly sorted sequence no other row shares the head's key. */
  lemma StrictHeadUnique<T>(a: seq<GridRow<T>>, x: GridRow<T>)
    requires StrictlySorted(a) && x in multiset(a) && KeyLe(x.key, a[0].key)
    ensures x == a[0]
  {
    assert x in a;
    var i :| 0 <= i < |a| && a[i] == x;
    if i > 0 {
      assert KeyLe(a[0].key, a[i].key) && a[0].key != a[i].key;
    }
  }

  /** A strictly sorted sequence is the only sorted arrangement of its
      rows. */
  lemma {:induction false} SortedUnique<T>(a: seq<GridRow<T>>, b: seq<GridRow<T>>)
    requires StrictlySorted(a) && Sorted(b) && multiset(a) == multiset(b)
    ensures a == b
    decreases |a|
  {
    if a == [] {
      assert |b| == |multiset(b)| == 0;
    } else {
      assert |b| == |multiset(b)| == |a|;
      SortedHeadLeast(b, a[0]);
      StrictHeadUnique(a, b[0]);
      assert a == [a[0]] + a[1..] && b == [b[0]] + b[1..];
      assert a[0] == b[0];
      assert multiset(a[1..]) == multiset(a) - multiset{a[0]};
      assert multiset(b[1..]) == multiset(b) - multiset{b[0]};
      SortedUnique(a[1..], b[1..]);
    }
  }

  /** '.track' in f: the names os.listdir yields that are kept. */
  predicate IsTrackFile(name: string)
  {
    Find(name, TrackSuffix) != -1
  }

  /** The file list of all_from_yrec: the listing's track files, in
      listing order. */
  function TrackFiles<T>(listing: seq<TrackFile<T>>): (files: seq<TrackFile<T>>)
    ensures forall f :: f in files ==> f in listing && IsTrackFile(f.name)
  {
    if listing == [] then []
    else if IsTrackFile(listing[0].name) then [listing[0]] + TrackFiles(listing[1..])
    else TrackFiles(listing[1..])
  }

  /** Filtering keeps listing order: the file list of a listing split in
      two is the file list of the first part followed by that of the second. */
  lemma {:induction false} TrackFilesAppend<T>(a: seq<TrackFile<T>>, b: seq<TrackFile<T>>)
    ensures TrackFiles(a + b) == TrackFiles(a) + TrackFiles(b)
    decreases |a|
  {
    if a != [] {
      assert (a + b)[1..] == a[1..] + b;
      TrackFilesAppend(a[1..], b);
    } else {
      assert a + b == b;
    }
  }

  /** A single entry is kept exactly when its name contains ".track". */
  lemma TrackFilesOne<T>(f: TrackFile<T>)
    ensures TrackFiles([f]) == if IsTrackFile(f.name) then [f] else []
  {
    assert [f][1..] == [];
  }

  /** What the model asks of every file to be read: decimal digit fields. */
  predicate DecimalNames<T>(files: seq<TrackFile<T>>)
  {
    forall i :: 0 <= i < |files| ==> DigitFields(files[i].name)
  }

  predicate AllParse<T>(files: seq<TrackFile<T>>)
    requires DecimalNames(files)
  {
    forall i :: 0 <= i < |files| ==> ParseFilename(files[i].name).Success?
  }

  /** from_yrec on a file already read: decode the key from the name, then
      tag every row; a name that does not decode aborts. */
  function FromYrec<T>(file: TrackFile<T>): Result<seq<GridRow<T>>, GridError>
    requires DigitFields(file.name)
  {
    match ParseFilename(file.name)
    case Failure(e) => Failure(BadFileName(file.name, e))
    case Success(key) => Success(TagRows(key.mass, key.met, file.rows))
  }

  /** from_yrec succeeds exactly when the name decodes; then the file's
      rows are all kept, in order, and carry the keys (mass, [Fe/H], 0..N-1)
      of that name, in increasing order. */
  lemma FromYrecTagsRows<T>(file: TrackFile<T>)
    requires DigitFields(file.name)
    ensures FromYrec(file).Success? <==> ParseFilename(file.name).Success?
    ensures FromYrec(file).Success? ==>
      var key := ParseFilename(file.name).value;
      && Payload(FromYrec(file).value) == file.rows
      && KeySet(FromYrec(file).value) == (set s: nat | s < |file.rows| :: RowKey(key.mass, key.met, s))
      && StrictlySorted(FromYrec(file).value)
  {
    if ParseFilename(file.name).Success? {
      var key := ParseFilename(file.name).value;
      TagRowsKeys(key.mass, key.met, file.rows);
    }
  }

  /** A track whose name has been decoded: its key and its data rows. */
  datatype KeyedTrack<T> = KeyedTrack(key: TrackKey, rows: seq<T>)

  function Keyed<T>(file: TrackFile<T>): KeyedTrack<T>
    requires DigitFields(file.name) && ParseFilename(file.name).Success?
  {
    KeyedTrack(ParseFilename(file.name).value, file.rows)
  }

  /** The decoded tracks of files whose names all decode, in file order. */
  function Decode<T>(files: seq<TrackFile<T>>): (ts: seq<KeyedTrack<T>>)
    requires DecimalNames(files) && AllParse(files)
    ensures |ts| == |files|
  {
    seq(|files|, i requires 0 <= i < |files| && DigitFields(files[i].name) && ParseFilename(files[i].name).Success? => Keyed(files[i]))
  }

  /** from_yrec's tagging of a decoded track. */
  function TagTrack<T>(t: KeyedTrack<T>): seq<GridRow<T>>
  {
    TagRows(t.key.mass, t.key.met, t.rows)
  }

  function TagTracks<T>(ts: seq<KeyedTrack<T>>): (dfs: seq<seq<GridRow<T>>>)
    ensures |dfs| == |ts|
  {
    seq(|ts|, i requires 0 <= i < |ts| => TagTrack(ts[i]))
  }

  /** The loop of all_from_yrec: from_yrec on each file in turn, appending
      each frame to the list; the first name that does not decode aborts. */
  function LoadAll<T>(files: seq<TrackFile<T>>): Result<seq<seq<GridRow<T>>>, GridError>
    requires DecimalNames(files)
    decreases |files|
  {
    if files == [] then Success([])
    else
      var n := |files| - 1;
      assert DecimalNames(files[..n]);
      match LoadAll(files[..n])
      case Failure(e) => Failure(e)
      case Success(dfs) =>
        match FromYrec(files[n])
        case Failure(e) => Failure(e)
        case Success(df) => Success(dfs + [df])
  }

  /** pd.concat: the frames' rows one after the other, in list order. */
  function Concat<T>(dfs: seq<seq<GridRow<T>>>): seq<GridRow<T>>
  {
    if dfs == [] then [] else Concat(dfs[..|dfs| - 1]) + dfs[|dfs| - 1]
  }

  /** all_from_yrec on a list of track files: load every file, concatenate
      (which fails on an empty list) and sort by key. */
  function Assemble<T>(files: seq<TrackFile<T>>): Result<seq<GridRow<T>>, GridError>
    requires DecimalNames(files)
  {
    match LoadAll(files)
    case Failure(e) => Failure(e)
    case Success(dfs) => if dfs == [] then Failure(NoTrackFiles) else Success(SortIndex(Concat(dfs)))
  }

  /** Every name decodes exactly when every name but the last does and
      the last one does too. */
  lemma AllParseLast<T>(files: seq<TrackFile<T>>)
    requires DecimalNames(files) && files != []
    ensures DecimalNames(files[..|files| - 1])
    ensures AllParse(files) <==> AllParse(files[..|files| - 1]) && ParseFilename(files[|files| - 1].name).Success?
  {
    var prefix := files[..|files| - 1];
    assert forall i :: 0 <= i < |prefix| ==> prefix[i] == files[i];
  }

  lemma NamesPrefix<T>(files: seq<TrackFile<T>>, n: nat)
    requires DecimalNames(files) && n <= |files|
    ensures DecimalNames(files[..n])
    ensures AllParse(files) ==> AllParse(files[..n])
  {
    var prefix := files[..n];
    assert forall i :: 0 <= i < n ==> prefix[i] == files[i];
  }

  lemma DecodePrefix<T>(files: seq<TrackFile<T>>, n: nat)
    requires DecimalNames(files) && AllParse(files) && n <= |files|
    requires DecimalNames(files[..n]) && AllParse(files[..n])
    ensures Decode(files[..n]) == Decode(files)[..n]
  {
    var prefix := files[..n];
    var d, e := Decode(prefix), Decode(files);
    forall k | 0 <= k < n
      ensures d[k] == e[k]
    {
      assert prefix[k] == files[k];
    }
  }

  lemma DecodeLast<T>(files: seq<TrackFile<T>>)
    requires DecimalNames(files) && AllParse(files) && files != []
    ensures DecimalNames(files[..|files| - 1]) && AllParse(files[..|files| - 1])
    ensures Decode(files) == Decode(files[..|files| - 1]) + [Keyed(files[|files| - 1])]
  {
    var n := |files| - 1;
    NamesPrefix(files, n);
    DecodePrefix(files, n);
    SplitLast(Decode(files));
  }

  /** A non-empty sequence is its front followed by its last element. */
  lemma SplitLast<A>(s: seq<A>)
    requires s != []
    ensures s == s[..|s| - 1] + [s[|s| - 1]]
  {
  }

  /** Loading succeeds exactly when every name decodes, and then yields
      one tagged frame per file, in file order. */
  lemma {:induction false} LoadAllSucceeds<T>(files: seq<TrackFile<T>>)
    requires DecimalNames(files)
    ensures LoadAll(files).Success? <==> AllParse(files)
    ensures LoadAll(files).Success? ==> LoadAll(files).value == TagTracks(Decode(files))
    decreases |files|
  {
    if files != [] {
      var n := |files| - 1;
      AllParseLast(files);
      LoadAllSucceeds(files[..n]);
      if AllParse(files) {
        DecodeLast(files);
        var ts := Decode(files[..n]);
        TagTracksAppend(ts, [Keyed(files[n])]);
        assert FromYrec(files[n]) == Success(TagTrack(Keyed(files[n])));
        assert TagTracks([Keyed(files[n])]) == [TagTrack(Keyed(files[n]))];
      }
    }
  }

  /** Once loading a prefix of the files has failed, loading all of them
      fails with the same error: later files are never reached. */
  lemma {:induction false} LoadAllStopsAtFailure<T>(files: seq<TrackFile<T>>, j: nat)
    requires DecimalNames(files) && j <= |files|
    requires DecimalNames(files[..j]) && LoadAll(files[..j]).Failure?
    ensures LoadAll(files) == LoadAll(files[..j])
    decreases |files| - j
  {
    if j < |files| {
      var n := |files| - 1;
      assert files[..n][..j] == files[..j];
      assert DecimalNames(files[..n]);
      LoadAllStopsAtFailure(files[..n], j);
    } else {
      assert files[..j] == files;
    }
  }

  /** One more file: loading the first i + 1 files is loading the first i
      and then that file. */
  lemma LoadAllStep<T>(files: seq<TrackFile<T>>, i: nat)
    requires DecimalNames(files) && i < |files|
    ensures DecimalNames(files[..i]) && DecimalNames(files[..i + 1])
    ensures LoadAll(files[..i + 1]) ==
      match LoadAll(files[..i])
      case Failure(e) => Failure(e)
      case Success(dfs) =>
        match FromYrec(files[i])
        case Failure(e) => Failure(e)
        case Success(df) => Success(dfs + [df])
  {
    NamesPrefix(files, i);
    NamesPrefix(files, i + 1);
    assert files[..i + 1][..i] == files[..i];
  }

  /** all_from_yrec: read every track file of the listing in listing
      order, appending each tagged frame to a list; the first name that does
      not decode aborts; then concatenate and sort. */
  method AllFromYrec<T>(listing: seq<TrackFile<T>>) returns (r: Result<seq<GridRow<T>>, GridError>)
    requires DecimalNames(TrackFiles(listing))
    ensures r == Assemble(TrackFiles(listing))
    ensures r.Success? ==> Sorted(r.value)
  {
    var files := TrackFiles(listing);
    var dfList: seq<seq<GridRow<T>>> := [];
    var i := 0;
    while i < |files|
      invariant 0 <= i <= |files|
      invariant DecimalNames(files[..i])
      invariant LoadAll(files[..i]) == Success(dfList)
    {
      LoadAllStep(files, i);
      var df := FromYrec(files[i]);
      if df.Failure? {
        LoadAllStopsAtFailure(files, i + 1);
        return Failure(df.error);
      }
      dfList := dfList + [df.value];
      i := i + 1;
    }
    assert files[..i] == files;
    if dfList == [] {
      return Failure(NoTrackFiles);
    }
    r := Success(SortIndex(Concat(dfList)));
  }

  /** e is the error of the i-th file's name, and every earlier name
      decodes. */
  predicate FailsFirstAt<T>(files: seq<TrackFile<T>>, i: int, e: GridError)
    requires DecimalNames(files)
  {
    && 0 <= i < |files|
    && (forall j :: 0 <= j < i ==> ParseFilename(files[j].name).Success?)
    && ParseFilename(files[i].name).Failure?
    && e == BadFileName(files[i].name, ParseFilename(files[i].name).error)
  }

  lemma FailsFirstAtExtend<T>(files: seq<TrackFile<T>>, n: nat, i: int, e: GridError)
    requires DecimalNames(files) && n <= |files| && DecimalNames(files[..n])
    requires FailsFirstAt(files[..n], i, e)
    ensures FailsFirstAt(files, i, e)
  {
    var prefix := files[..n];
    assert forall j :: 0 <= j < n ==> prefix[j] == files[j];
  }

  lemma FailsFirstAtLast<T>(files: seq<TrackFile<T>>)
    requires DecimalNames(files) && files != []
    requires DecimalNames(files[..|files| - 1]) && AllParse(files[..|files| - 1])
    requires ParseFilename(files[|files| - 1].name).Failure?
    ensures FailsFirstAt(files, |files| - 1,
      BadFileName(files[|files| - 1].name, ParseFilename(files[|files| - 1].name).error))
  {
    var prefix := files[..|files| - 1];
    assert forall j :: 0 <= j < |prefix| ==> prefix[j] == files[j];
  }

  /** When loading fails, the error is that of the first file whose name
      does not decode: every file before it decodes. */
  lemma {:induction false} LoadAllFirstFailure<T>(files: seq<TrackFile<T>>)
    requires DecimalNames(files) && LoadAll(files).Failure?
    ensures exists i :: FailsFirstAt(files, i, LoadAll(files).error)
    decreases |files|
  {
    var n := |files| - 1;
    NamesPrefix(files, n);
    if LoadAll(files[..n]).Failure? {
      LoadAllFirstFailure(files[..n]);
      var i :| FailsFirstAt(files[..n], i, LoadAll(files[..n]).error);
      FailsFirstAtExtend(files, n, i, LoadAll(files).error);
    } else {
      LoadAllSucceeds(files[..n]);
      FailsFirstAtLast(files);
    }
  }

  /** all_from_yrec has no per-file isolation: it succeeds exactly when
      there is a track file and every name decodes; with no track file it
      fails as concatenating nothing does; otherwise it fails with the
      error of the first name that does not decode. */
  lemma AssembleOutcome<T>(files: seq<TrackFile<T>>)
    requires DecimalNames(files)
    ensures Assemble(files).Success? <==> files != [] && AllParse(files)
    ensures Assemble(files) == Failure(NoTrackFiles) <==> files == []
    ensures files != [] && Assemble(files).Failure? ==>
      exists i :: FailsFirstAt(files, i, Assemble(files).error)
  {
    LoadAllSucceeds(files);
    if LoadAll(files).Failure? {
      LoadAllFirstFailure(files);
    }
  }

  lemma TagTracksAppend<T>(u: seq<KeyedTrack<T>>, v: seq<KeyedTrack<T>>)
    ensures TagTracks(u + v) == TagTracks(u) + TagTracks(v)
  {
    var x, y := TagTracks(u + v), TagTracks(u) + TagTracks(v);
    forall i | 0 <= i < |u + v|
      ensures x[i] == y[i]
    {
      if i >= |u| {
        assert (u + v)[i] == v[i - |u|];
      }
    }
  }

  /** pd.concat of two lists is the concatenation of their results. */
  lemma {:induction false} ConcatAppend<T>(a: seq<seq<GridRow<T>>>, b: seq<seq<GridRow<T>>>)
    ensures Concat(a + b) == Concat(a) + Concat(b)
    decreases |b|
  {
    if b != [] {
      var n := |b| - 1;
      assert (a + b)[..|a + b| - 1] == a + b[..n];
      ConcatAppend(a, b[..n]);
    } else {
      assert a + b == a;
    }
  }

  /** The rows of the last track follow those of the others. */
  lemma ConcatTagTracksLast<T>(ts: seq<KeyedTrack<T>>)
    requires ts != []
    ensures Concat(TagTracks(ts)) == Concat(TagTracks(ts[..|ts| - 1])) + TagTrack(ts[|ts| - 1])
  {
    var n := |ts| - 1;
    assert ts == ts[..n] + [ts[n]];
    TagTracksAppend(ts[..n], [ts[n]]);
    assert TagTracks(ts)[..n] == TagTracks(ts[..n]);
  }

  /** The total number of data rows of the tracks. */
  function TotalRows<T>(ts: seq<KeyedTrack<T>>): nat
  {
    if ts == [] then 0 else TotalRows(ts[..|ts| - 1]) + |ts[|ts| - 1].rows|
  }

  /** Concatenation keeps every row: as many rows as the tracks hold. */
  lemma {:induction false} ConcatLength<T>(ts: seq<KeyedTrack<T>>)
    ensures |Concat(TagTracks(ts))| == TotalRows(ts)
    decreases |ts|
  {
    if ts != [] {
      ConcatTagTracksLast(ts);
      ConcatLength(ts[..|ts| - 1]);
    }
  }

  /** k is the key of one of the track's rows: the track's mass and [Fe/H]
      with a step below its row count. */
  predicate RowOf<T>(t: KeyedTrack<T>, k: RowKey)
  {
    k.initialMass == t.key.mass && k.initialMet == t.key.met && k.step < |t.rows|
  }

  lemma KeySetTagged<T>(t: KeyedTrack<T>, k: RowKey)
    ensures k in KeySet(TagTrack(t)) <==> RowOf(t, k)
  {
    TagRowsKeys(t.key.mass, t.key.met, t.rows);
  }

  /** The keys of the concatenated rows: (mass, [Fe/H], s) for each track
      and each s below that track's row count, and nothing else. */
  lemma {:induction false} ConcatKeys<T>(ts: seq<KeyedTrack<T>>, k: RowKey)
    ensures k in KeySet(Concat(TagTracks(ts))) <==> exists i :: 0 <= i < |ts| && RowOf(ts[i], k)
    decreases |ts|
  {
    if ts != [] {
      var n := |ts| - 1;
      var prefix := ts[..n];
      ConcatTagTracksLast(ts);
      ConcatKeys(prefix, k);
      KeySetAppend(Concat(TagTracks(prefix)), TagTrack(ts[n]));
      KeySetTagged(ts[n], k);
      if exists i :: 0 <= i < |ts| && RowOf(ts[i], k) {
        var i :| 0 <= i < |ts| && RowOf(ts[i], k);
        if i < n {
          assert RowOf(prefix[i], k);
        }
      }
      if exists i :: 0 <= i < n && RowOf(prefix[i], k) {
        var i :| 0 <= i < n && RowOf(prefix[i], k);
        assert RowOf(ts[i], k);
      }
    }
  }

  /** No two tracks have the same (mass, [Fe/H]). */
  predicate DistinctTracks<T>(ts: seq<KeyedTrack<T>>)
  {
    forall i, j :: 0 <= i < j < |ts| ==> ts[i].key.mass != ts[j].key.mass || ts[i].key.met != ts[j].key.met
  }

  lemma DistinctKeysAppend<T>(a: seq<GridRow<T>>, b: seq<GridRow<T>>)
    requires DistinctKeys(a) && DistinctKeys(b) && KeySet(a) !! KeySet(b)
    ensures DistinctKeys(a + b)
  {
    var c := a + b;
    forall i, j | 0 <= i < j < |c|
      ensures c[i].key != c[j].key
    {
      if i < |a| && j >= |a| {
        assert c[i].key in KeySet(a);
        assert c[j] == b[j - |a|];
        assert c[j].key in KeySet(b);
      } else if i >= |a| {
        assert c[i] == b[i - |a|] && c[j] == b[j - |a|];
      }
    }
  }

  /** Tracks with distinct (mass, [Fe/H]) give rows with distinct keys. */
  lemma {:induction false} ConcatDistinct<T>(ts: seq<KeyedTrack<T>>)
    requires DistinctTracks(ts)
    ensures DistinctKeys(Concat(TagTracks(ts)))
    decreases |ts|
  {
    if ts != [] {
      var n := |ts| - 1;
      var prefix := ts[..n];
      assert DistinctTracks(prefix);
      ConcatDistinct(prefix);
      ConcatTagTracksLast(ts);
      var front := Concat(TagTracks(prefix));
      TagRowsKeys(ts[n].key.mass, ts[n].key.met, ts[n].rows);
      forall k | k in KeySet(front)
        ensures k !in KeySet(TagTrack(ts[n]))
      {
        ConcatKeys(prefix, k);
        KeySetTagged(ts[n], k);
      }
      DistinctKeysAppend(front, TagTrack(ts[n]));
    }
  }

  /** The assembled grid is the concatenated tagged rows, all of them and
      nothing else, sorted ascending by (mass, [Fe/H], step). */
  lemma AssembleSortedPermutation<T>(files: seq<TrackFile<T>>)
    requires DecimalNames(files) && Assemble(files).Success?
    ensures AllParse(files)
    ensures Sorted(Assemble(files).value)
    ensures multiset(Assemble(files).value) == multiset(Concat(TagTracks(Decode(files))))
    ensures |Assemble(files).value| == TotalRows(Decode(files))
    ensures forall k :: k in KeySet(Assemble(files).value) <==>
      exists i :: 0 <= i < |files| && RowOf(Decode(files)[i], k)
  {
    LoadAllSucceeds(files);
    var ts := Decode(files);
    ConcatLength(ts);
    var g := Assemble(files).value;
    assert |g| == |multiset(g)|;
    forall k
      ensures k in KeySet(g) <==> exists i :: 0 <= i < |files| && RowOf(ts[i], k)
    {
      ConcatKeys(ts, k);
    }
  }

  /** Rows that share a key keep their concatenation order, which is the
      order of the files: with two files of the same (mass, [Fe/H]), the
      first file's row of each step comes first in the grid. */
  lemma AssembleStable<T>(files: seq<TrackFile<T>>, k: RowKey)
    requires DecimalNames(files) && Assemble(files).Success?
    ensures AllParse(files)
    ensures WithKey(Assemble(files).value, k) == WithKey(Concat(TagTracks(Decode(files))), k)
  {
    LoadAllSucceeds(files);
    SortIndexStable(Concat(TagTracks(Decode(files))), k);
  }

  lemma MultisetRemoveAt<A>(b: seq<A>, j: nat)
    requires j < |b|
    ensures multiset(b[..j] + b[j + 1..]) == multiset(b) - multiset{b[j]}
  {
    assert b == b[..j] + [b[j]] + b[j + 1..];
  }

  /** Two sequences whose last and j-th elements agree, and whose other
      elements are a permutation of each other, are permutations. */
  lemma MultisetRestore<A>(x: seq<A>, y: seq<A>, j: nat)
    requires x != [] && j < |y| && x[|x| - 1] == y[j]
    requires multiset(x[..|x| - 1]) == multiset(y[..j] + y[j + 1..])
    ensures multiset(x) == multiset(y)
  {
    var n := |x| - 1;
    assert x == x[..n] + [x[n]];
    assert y == y[..j] + [y[j]] + y[j + 1..];
    assert multiset(y[..j] + y[j + 1..]) == multiset(y[..j]) + multiset(y[j + 1..]);
  }

  /** Taking one frame out of the list takes exactly its rows out of the
      concatenation. */
  lemma ConcatAround<T>(u: seq<seq<GridRow<T>>>, x: seq<GridRow<T>>, v: seq<seq<GridRow<T>>>)
    ensures Concat(u + [x] + v) == Concat(u) + x + Concat(v)
  {
    ConcatAppend(u + [x], v);
    ConcatAppend(u, [x]);
    assert Concat([x]) == x;
  }

  lemma ConcatRemove<T>(u: seq<seq<GridRow<T>>>, x: seq<GridRow<T>>, v: seq<seq<GridRow<T>>>)
    ensures multiset(Concat(u + [x] + v)) == multiset(Concat(u + v)) + multiset(x)
  {
    ConcatAround(u, x, v);
    ConcatAppend(u, v);
    var cu, cv := Concat(u), Concat(v);
    assert multiset(cu + x + cv) == multiset(cu) + multiset(x) + multiset(cv);
  }

  lemma SplitAt<A>(d: seq<A>, j: nat)
    requires j < |d|
    ensures d == d[..j] + [d[j]] + d[j + 1..]
  {
  }

  lemma ConcatWithout<T>(d: seq<seq<GridRow<T>>>, j: nat)
    requires j < |d|
    ensures multiset(Concat(d)) == multiset(Concat(d[..j] + d[j + 1..])) + multiset(d[j])
  {
    SplitAt(d, j);
    ConcatRemove(d[..j], d[j], d[j + 1..]);
  }

  lemma TagTracksWithout<T>(b: seq<KeyedTrack<T>>, j: nat)
    requires j < |b|
    ensures TagTracks(b[..j] + b[j + 1..]) == TagTracks(b)[..j] + TagTracks(b)[j + 1..]
  {
    TagTracksAppend(b[..j], b[j + 1..]);
    assert TagTracks(b[..j]) == TagTracks(b)[..j];
    assert TagTracks(b[j + 1..]) == TagTracks(b)[j + 1..];
  }

  /** Reordering the tracks reorders the concatenated rows and nothing
      more. */
  lemma {:induction false} ConcatPermutation<T>(a: seq<KeyedTrack<T>>, b: seq<KeyedTrack<T>>)
    requires multiset(a) == multiset(b)
    ensures multiset(Concat(TagTracks(a))) == multiset(Concat(TagTracks(b)))
    decreases |a|
  {
    if a == [] {
      assert |b| == |multiset(b)| == 0;
    } else {
      var n := |a| - 1;
      assert a[n] in multiset(b);
      var j :| 0 <= j < |b| && b[j] == a[n];
      MultisetRemoveAt(a, n);
      MultisetRemoveAt(b, j);
      assert a[..n] + a[n + 1..] == a[..n];
      ConcatPermutation(a[..n], b[..j] + b[j + 1..]);
      TagTracksWithout(a, n);
      TagTracksWithout(b, j);
      ConcatWithout(TagTracks(a), n);
      ConcatWithout(TagTracks(b), j);
    }
  }

  /** A reordering of files whose names all decode has names that all
      decode. */
  lemma PermutedNames<T>(a: seq<TrackFile<T>>, b: seq<TrackFile<T>>)
    requires multiset(a) == multiset(b)
    ensures DecimalNames(a) ==> DecimalNames(b)
    ensures DecimalNames(a) && AllParse(a) ==> DecimalNames(b) && AllParse(b)
  {
    forall j | 0 <= j < |b|
      ensures exists i :: 0 <= i < |a| && a[i] == b[j]
    {
      assert b[j] in multiset(a);
    }
  }

  /** f is defined on every element of s. */
  ghost predicate DefinedOn<A, B>(f: A --> B, s: seq<A>)
  {
    forall i :: 0 <= i < |s| ==> f.requires(s[i])
  }

  /** f applied to every element, in order. */
  function Map<A, B>(f: A --> B, s: seq<A>): (r: seq<B>)
    requires DefinedOn(f, s)
    ensures |r| == |s|
  {
    seq(|s|, i requires 0 <= i < |s| && f.requires(s[i]) => f(s[i]))
  }

  lemma MapWithout<A, B>(f: A --> B, b: seq<A>, j: nat)
    requires j < |b| && DefinedOn(f, b)
    ensures DefinedOn(f, b[..j] + b[j + 1..])
    ensures Map(f, b[..j] + b[j + 1..]) == Map(f, b)[..j] + Map(f, b)[j + 1..]
  {
    var rest := b[..j] + b[j + 1..];
    assert forall i :: 0 <= i < |rest| ==> rest[i] == if i < j then b[i] else b[i + 1];
  }

  /** Mapping a permutation gives a permutation. */
  lemma {:induction false} MapPermutation<A, B>(f: A --> B, a: seq<A>, b: seq<A>)
    requires multiset(a) == multiset(b)
    requires DefinedOn(f, a) && DefinedOn(f, b)
    ensures multiset(Map(f, a)) == multiset(Map(f, b))
    decreases |a|
  {
    if a == [] {
      assert |b| == |multiset(b)| == 0;
    } else {
      var n := |a| - 1;
      assert a[n] in multiset(b);
      var j :| 0 <= j < |b| && b[j] == a[n];
      MultisetRemoveAt(a, n);
      MultisetRemoveAt(b, j);
      assert a[..n] + a[n + 1..] == a[..n];
      MapWithout(f, a, n);
      MapWithout(f, b, j);
      MapPermutation(f, a[..n], b[..j] + b[j + 1..]);
      MultisetRestore(Map(f, a), Map(f, b), j);
    }
  }

  /** Reordering the files reorders their decoded tracks. */
  lemma DecodePermutation<T>(a: seq<TrackFile<T>>, b: seq<TrackFile<T>>)
    requires DecimalNames(a) && AllParse(a) && multiset(a) == multiset(b)
    ensures DecimalNames(b) && AllParse(b)
    ensures multiset(Decode(a)) == multiset(Decode(b))
  {
    PermutedNames(a, b);
    var decode := (file: TrackFile<T>) requires DigitFields(file.name) && ParseFilename(file.name).Success? => Keyed(file);
    MapPermutation(decode, a, b);
    assert Map(decode, a) == Decode(a);
    assert Map(decode, b) == Decode(b);
  }

  /** With every name decoding, the grid is the sorted concatenation of
      the decoded tracks' tagged rows. */
  lemma AssembleOfDecoded<T>(files: seq<TrackFile<T>>)
    requires DecimalNames(files) && AllParse(files) && files != []
    ensures Assemble(files) == Success(SortIndex(Concat(TagTracks(Decode(files)))))
  {
    LoadAllSucceeds(files);
  }

  /** Sorting the rows of tracks with distinct (mass, [Fe/H]) gives the
      same grid whatever order the tracks come in. */
  lemma SortedGridUnique<T>(a: seq<KeyedTrack<T>>, b: seq<KeyedTrack<T>>)
    requires multiset(a) == multiset(b) && DistinctTracks(a)
    ensures SortIndex(Concat(TagTracks(a))) == SortIndex(Concat(TagTracks(b)))
  {
    ConcatPermutation(a, b);
    ConcatDistinct(a);
    SortedUnique(SortIndex(Concat(TagTracks(a))), SortIndex(Concat(TagTracks(b))));
  }

  /** Whether assembly succeeds does not depend on the order of the files. */
  lemma AssembleOutcomeOrderIndependent<T>(a: seq<TrackFile<T>>, b: seq<TrackFile<T>>)
    requires DecimalNames(a) && multiset(a) == multiset(b)
    ensures DecimalNames(b)
    ensures Assemble(a).Success? <==> Assemble(b).Success?
  {
    PermutedNames(a, b);
    PermutedNames(b, a);
    AssembleOutcome(a);
    AssembleOutcome(b);
    assert a == [] <==> b == [] by {
      assert |a| == |multiset(a)| && |b| == |multiset(b)|;
    }
  }

  /** The order the files come in does not change the grid, as long as no
      two files carry the same (mass, [Fe/H]). */
  lemma AssembleOrderIndependent<T>(a: seq<TrackFile<T>>, b: seq<TrackFile<T>>)
    requires DecimalNames(a) && AllParse(a) && DistinctTracks(Decode(a))
    requires multiset(a) == multiset(b)
    ensures DecimalNames(b) && Assemble(b) == Assemble(a)
  {
    DecodePermutation(a, b);
    assert a == [] <==> b == [] by {
      assert |a| == |multiset(a)| && |b| == |multiset(b)|;
    }
    if a != [] {
      AssembleOfDecoded(a);
      AssembleOfDecoded(b);
      SortedGridUnique(Decode(a), Decode(b));
    }
  }

  /** The filter keeps every copy of a track file and drops every other
      entry. */
  lemma {:induction false} TrackFilesCount<T>(listing: seq<TrackFile<T>>, f: TrackFile<T>)
    ensures multiset(TrackFiles(listing))[f] == if IsTrackFile(f.name) then multiset(listing)[f] else 0
    decreases |listing|
  {
    if listing != [] {
      TrackFilesCount(listing[1..], f);
      assert listing == [listing[0]] + listing[1..];
    }
  }

  lemma MultisetExtensional<A>(m1: multiset<A>, m2: multiset<A>)
    requires forall x :: m1[x] == m2[x]
    ensures m1 == m2
  {
  }

  lemma TrackFilesPermutation<T>(l1: seq<TrackFile<T>>, l2: seq<TrackFile<T>>)
    requires multiset(l1) == multiset(l2)
    ensures multiset(TrackFiles(l1)) == multiset(TrackFiles(l2))
  {
    var m1, m2 := multiset(TrackFiles(l1)), multiset(TrackFiles(l2));
    forall f
      ensures m1[f] == m2[f]
    {
      TrackFilesCount(l1, f);
      TrackFilesCount(l2, f);
    }
    MultisetExtensional(m1, m2);
  }

  /** os.listdir promises no order: all_from_yrec gives the same grid for
      any order of the same directory entries, as long as no two track
      files carry the same (mass, [Fe/H]); and whether it succeeds never
      depends on the order. */
  lemma ListingOrderIndependent<T>(l1: seq<TrackFile<T>>, l2: seq<TrackFile<T>>)
    requires multiset(l1) == multiset(l2) && DecimalNames(TrackFiles(l1))
    ensures DecimalNames(TrackFiles(l2))
    ensures Assemble(TrackFiles(l1)).Success? <==> Assemble(TrackFiles(l2)).Success?
    ensures AllParse(TrackFiles(l1)) && DistinctTracks(Decode(TrackFiles(l1))) ==>
      Assemble(TrackFiles(l2)) == Assemble(TrackFiles(l1))
  {
    TrackFilesPermutation(l1, l2);
    AssembleOutcomeOrderIndependent(TrackFiles(l1), TrackFiles(l2));
    if AllParse(TrackFiles(l1)) && DistinctTracks(Decode(TrackFiles(l1))) {
      AssembleOrderIndependent(TrackFiles(l1), TrackFiles(l2));
    }
  }
}
