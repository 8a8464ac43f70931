/** The registry of uploaded usage CSV files kept in one directory: listing
    them newest first, picking the latest, and loading one by id. The file
    system is an input value: a directory either cannot be read, or lists
    entries together with what `stat` and reading each file would give; the
    SHA-256 digest is an opaque function. */
module CsvRegistry {
  import opened Results
  import opened Text

  newtype byte = x: int | 0 <= x < 256

  /** What `statSync` reports: size in bytes and modification time (ms). */
  datatype FileStat = FileStat(size: nat, mtime: int)

  /** A directory entry, with the outcome of `statSync` and `readFileSync`
      on it (an error carries the exception's message). */
  datatype DirEntry = DirEntry(
    name: string,
    isFile: bool,
    stat: Result<FileStat, string>,
    content: Result<seq<byte>, string>)

  /** The outcome of `readdirSync`. */
  datatype Directory = Unreadable(message: string) | Listing(entries: seq<DirEntry>)

  datatype FsOp = Readdir | Stat | Read

  /** `CsvRegistryError`, whose only kind is `FsError`; `file` is absent for
      directory errors. */
  datatype CsvRegistryError = FsError(op: FsOp, message: string, file: Option<string>)

  /** `CsvUploadRecord`: the id is the file name. */
  datatype CsvUploadRecord = CsvUploadRecord(
    id: string,
    filename: string,
    size: nat,
    contentHash: string,
    uploadedAt: int)

  // ---------------------------------------------------------------------
  // File names

  /** The position of the last '.' among the first `i` characters. */
  function LastDot(s: string, i: nat): (d: Option<nat>)
    requires i <= |s|
    ensures d.None? ==> forall j :: 0 <= j < i ==> s[j] != '.'
    ensures d.Some? ==> d.value < i && s[d.value] == '.' && forall j :: d.value < j < i ==> s[j] != '.'
  {
    if i == 0 then None
    else if s[i - 1] == '.' then Some(i - 1)
    else LastDot(s, i - 1)
  }

  /** Node's `path.extname` of a name holding no '/': from the last '.' on,
      except that a name without a dot, whose only dot leads it (".csv"),
      or that is exactly ".." has none. */
  function Extname(name: string): (ext: string)
    ensures ext == [] || (ext[0] == '.' && |ext| < |name| && ext == name[|name| - |ext|..])
  {
    match LastDot(name, |name|)
    case None => ""
    case Some(d) => if d == 0 || name == ".." then "" else name[d..]
  }

  /** The listing's filter: a regular file whose extension, lowered, is
      ".csv". */
  predicate IsCandidate(e: DirEntry)
  {
    e.isFile && ToLower(Extname(e.name)) == ".csv"
  }

  /** A name passes exactly when it is longer than ".csv" and ends in ".csv"
      in any mix of cases. */
  lemma CsvExtension(name: string)
    ensures ToLower(Extname(name)) == ".csv" <==> |name| >= 5 && ToLower(name[|name| - 4..]) == ".csv"
  {
    var n := |name|;
    var ext := Extname(name);
    if ToLower(ext) == ".csv" {
      assert |ext| == 4 && ext == name[n - 4..];
      assert ext[0] == '.' && LastDot(name, n).Some?;
    }
    if n >= 5 && ToLower(name[n - 4..]) == ".csv" {
      var tail := name[n - 4..];
      var low := ToLower(tail);
      assert low[0] == LowerChar(tail[0]) == '.';
      forall j | n - 4 < j < n ensures name[j] != '.' {
        assert low[j - (n - 4)] == LowerChar(tail[j - (n - 4)]) != '.';
      }
      assert name[n - 4] == '.';
      assert LastDot(name, n) == Some(n - 4);
    }
  }

  // ---------------------------------------------------------------------
  // Listing

  /** Stat then read one entry; the first failure's message, or the record
      built from both. */
  function Load(e: DirEntry, hash: seq<byte> -> string): (r: Result<CsvUploadRecord, string>)
    ensures r.Ok? <==> e.stat.Ok? && e.content.Ok?
    ensures r.Ok? ==> r.value == CsvUploadRecord(e.name, e.name, e.stat.value.size, hash(e.content.value), e.stat.value.mtime)
    ensures r.Err? ==> r.error == if e.stat.Err? then e.stat.error else e.content.error
  {
    match e.stat
    case Err(m) => Err(m)
    case Ok(st) =>
      match e.content
      case Err(m) => Err(m)
      case Ok(bytes) => Ok(CsvUploadRecord(e.name, e.name, st.size, hash(bytes), st.mtime))
  }

  /** The records of the candidates from position `i` on, in directory order,
      or the error of the first candidate that cannot be loaded, tagged
      `stat` with the entry's name whichever call failed. */
  function CollectFrom(entries: seq<DirEntry>, i: nat, hash: seq<byte> -> string): Result<seq<CsvUploadRecord>, CsvRegistryError>
    requires i <= |entries|
    decreases |entries| - i
  {
    if i == |entries| then Ok([])
    else
      var e := entries[i];
      if !IsCandidate(e) then CollectFrom(entries, i + 1, hash)
      else match Load(e, hash)
        case Err(m) => Err(FsError(Stat, m, Some(e.name)))
        case Ok(r) => Prepend([r], CollectFrom(entries, i + 1, hash))
  }

  /** Newest first: modification times never increase along the list. */
  predicate NewestFirst(rs: seq<CsvUploadRecord>)
  {
    forall i, j :: 0 <= i < j < |rs| ==> rs[i].uploadedAt >= rs[j].uploadedAt
  }

  /** Puts `x` in front of the first record that is not newer, so records
      with equal times keep their order. */
  function Insert(x: CsvUploadRecord, rs: seq<CsvUploadRecord>): (r: seq<CsvUploadRecord>)
    ensures multiset(r) == multiset(rs) + multiset{x}
  {
    if rs == [] || rs[0].uploadedAt <= x.uploadedAt then [x] + rs
    else
      assert rs == [rs[0]] + rs[1..];
      [rs[0]] + Insert(x, rs[1..])
  }

  lemma {:induction false} InsertKeepsOrder(x: CsvUploadRecord, rs: seq<CsvUploadRecord>)
    requires NewestFirst(rs)
    ensures NewestFirst(Insert(x, rs))
  {
    if rs != [] && rs[0].uploadedAt > x.uploadedAt {
      var tail := rs[1..];
      InsertKeepsOrder(x, tail);
      var r := Insert(x, rs);
      var rest := Insert(x, tail);
      assert r == [rs[0]] + rest;
      forall j | 0 < j < |r| ensures rs[0].uploadedAt >= r[j].uploadedAt {
        assert r[j] == rest[j - 1];
        assert r[j] in multiset(rest);
        if r[j] != x {
          assert r[j] in multiset(tail);
          var k :| 0 <= k < |tail| && tail[k] == r[j];
          assert tail[k] == rs[k + 1];
        }
      }
    }
  }

  /** `recs.sort((a, b) => b.uploadedAt - a.uploadedAt)`: a stable sort,
      newest first. */
  function SortNewestFirst(rs: seq<CsvUploadRecord>): (r: seq<CsvUploadRecord>)
    ensures multiset(r) == multiset(rs)
    ensures NewestFirst(r)
  {
    if rs == [] then []
    else
      assert rs == [rs[0]] + rs[1..];
      InsertKeepsOrder(rs[0], SortNewestFirst(rs[1..]));
      Insert(rs[0], SortNewestFirst(rs[1..]))
  }

  /** What `list()` returns. */
  function ListSpec(dir: Directory, hash: seq<byte> -> string): Result<seq<CsvUploadRecord>, CsvRegistryError>
  {
    match dir
    case Unreadable(m) => Err(FsError(Readdir, m, None))
    case Listing(entries) =>
      match CollectFrom(entries, 0, hash)
      case Err(e) => Err(e)
      case Ok(recs) => Ok(SortNewestFirst(recs))
  }

  /** `list()`: scan the entries, skip non-files and non-CSV names, stat and
      read each candidate, stop at the first failure; then sort. */
  method List(dir: Directory, hash: seq<byte> -> string) returns (res: Result<seq<CsvUploadRecord>, CsvRegistryError>)
    ensures res == ListSpec(dir, hash)
    ensures dir.Unreadable? ==> res == Err(FsError(Readdir, dir.message, None))
    ensures res.Ok? ==> NewestFirst(res.value)
  {
    if dir.Unreadable? {
      return Err(FsError(Readdir, dir.message, None));
    }
    var entries := dir.entries;
    var recs: seq<CsvUploadRecord> := [];
    PrependNothing(CollectFrom(entries, 0, hash));
    for i := 0 to |entries|
      invariant CollectFrom(entries, 0, hash) == Prepend(recs, CollectFrom(entries, i, hash))
    {
      var entry := entries[i];
      ghost var rest := CollectFrom(entries, i + 1, hash);
      if !entry.isFile {
        assert CollectFrom(entries, i, hash) == rest;
        continue;
      }
      if ToLower(Extname(entry.name)) != ".csv" {
        assert CollectFrom(entries, i, hash) == rest;
        continue;
      }
      assert IsCandidate(entry);
      var st := entry.stat;
      if st.Err? {
        assert CollectFrom(entries, i, hash) == Err(FsError(Stat, st.error, Some(entry.name)));
        return Err(FsError(Stat, st.error, Some(entry.name)));
      }
      var buf := entry.content;
      if buf.Err? {
        assert CollectFrom(entries, i, hash) == Err(FsError(Stat, buf.error, Some(entry.name)));
        return Err(FsError(Stat, buf.error, Some(entry.name)));
      }
      var rec := CsvUploadRecord(entry.name, entry.name, st.value.size, hash(buf.value), st.value.mtime);
      assert CollectFrom(entries, i, hash) == Prepend([rec], rest);
      PrependPrepend(recs, [rec], rest);
      recs := recs + [rec];
    }
    assert recs + [] == recs;
    res := Ok(SortNewestFirst(recs));
  }

  // ---------------------------------------------------------------------
  // Properties of the listing

  /** From position `i` on, a successful scan loaded every candidate and
      holds exactly their records. */
  lemma {:induction false} CollectContents(entries: seq<DirEntry>, i: nat, hash: seq<byte> -> string)
    requires i <= |entries|
    requires CollectFrom(entries, i, hash).Ok?
    ensures forall k :: i <= k < |entries| && IsCandidate(entries[k]) ==> Load(entries[k], hash).Ok?
    ensures forall r :: r in CollectFrom(entries, i, hash).value <==>
      exists k :: i <= k < |entries| && IsCandidate(entries[k]) && Load(entries[k], hash) == Ok(r)
    decreases |entries| - i
  {
    if i < |entries| {
      CollectContents(entries, i + 1, hash);
    }
  }

  /** A successful listing holds the record of every regular `.csv` file
      and nothing else. */
  lemma ListContents(entries: seq<DirEntry>, hash: seq<byte> -> string)
    requires ListSpec(Listing(entries), hash).Ok?
    ensures forall k :: 0 <= k < |entries| && IsCandidate(entries[k]) ==> Load(entries[k], hash).Ok?
    ensures forall r :: r in ListSpec(Listing(entries), hash).value <==>
      exists k :: 0 <= k < |entries| && IsCandidate(entries[k]) && Load(entries[k], hash) == Ok(r)
  {
    CollectContents(entries, 0, hash);
    var recs := CollectFrom(entries, 0, hash).value;
    forall r ensures r in SortNewestFirst(recs) <==> r in recs {
      assert r in SortNewestFirst(recs) <==> r in multiset(SortNewestFirst(recs));
    }
  }

  /** A scan from position `i` fails exactly at the first candidate that
      cannot be loaded, with that candidate's name and message. */
  lemma {:induction false} CollectFailure(entries: seq<DirEntry>, i: nat, k: nat, hash: seq<byte> -> string)
    requires i <= k < |entries|
    requires IsCandidate(entries[k]) && Load(entries[k], hash).Err?
    requires forall j :: i <= j < k && IsCandidate(entries[j]) ==> Load(entries[j], hash).Ok?
    ensures CollectFrom(entries, i, hash) == Err(FsError(Stat, Load(entries[k], hash).error, Some(entries[k].name)))
    decreases k - i
  {
    if i < k {
      CollectFailure(entries, i + 1, k, hash);
    }
  }

  /** The listing fails at the first candidate whose stat or read fails,
      reporting `stat` and the entry's name even when the read failed. */
  lemma ListFailure(entries: seq<DirEntry>, k: nat, hash: seq<byte> -> string)
    requires k < |entries|
    requires IsCandidate(entries[k]) && (entries[k].stat.Err? || entries[k].content.Err?)
    requires forall j :: 0 <= j < k && IsCandidate(entries[j]) ==> entries[j].stat.Ok? && entries[j].content.Ok?
    ensures ListSpec(Listing(entries), hash) == Err(FsError(Stat,
      if entries[k].stat.Err? then entries[k].stat.error else entries[k].content.error,
      Some(entries[k].name)))
  {
    CollectFailure(entries, 0, k, hash);
  }

  /** When every candidate can be stat'ed and read, the listing succeeds. */
  lemma {:induction false} CollectSucceeds(entries: seq<DirEntry>, i: nat, hash: seq<byte> -> string)
    requires i <= |entries|
    requires forall k :: i <= k < |entries| && IsCandidate(entries[k]) ==> entries[k].stat.Ok? && entries[k].content.Ok?
    ensures CollectFrom(entries, i, hash).Ok?
    decreases |entries| - i
  {
    if i < |entries| {
      CollectSucceeds(entries, i + 1, hash);
    }
  }

  /** Entries that are not regular `.csv` files are never stat'ed or read:
      their failures do not matter. */
  lemma IgnoredEntriesHarmless(entries: seq<DirEntry>, others: seq<DirEntry>, hash: seq<byte> -> string)
    requires |entries| == |others|
    requires forall k :: 0 <= k < |entries| ==>
      if IsCandidate(entries[k]) then others[k] == entries[k] else !IsCandidate(others[k])
    ensures ListSpec(Listing(entries), hash) == ListSpec(Listing(others), hash)
  {
    CollectIgnores(entries, others, 0, hash);
  }

  lemma {:induction false} CollectIgnores(entries: seq<DirEntry>, others: seq<DirEntry>, i: nat, hash: seq<byte> -> string)
    requires i <= |entries| == |others|
    requires forall k :: 0 <= k < |entries| ==>
      if IsCandidate(entries[k]) then others[k] == entries[k] else !IsCandidate(others[k])
    ensures CollectFrom(entries, i, hash) == CollectFrom(others, i, hash)
    decreases |entries| - i
  {
    if i < |entries| {
      CollectIgnores(entries, others, i + 1, hash);
    }
  }

  // ---------------------------------------------------------------------
  // Latest and content

  /** `latest()`: the head of the listing, nothing for an empty listing, or
      the listing's error unchanged. The head is a newest record. */
  method Latest(dir: Directory, hash: seq<byte> -> string) returns (res: Result<Option<CsvUploadRecord>, CsvRegistryError>)
    ensures ListSpec(dir, hash).Err? ==> res == Err(ListSpec(dir, hash).error)
    ensures ListSpec(dir, hash).Ok? ==> res.Ok? && (res.value == None <==> ListSpec(dir, hash).value == [])
    ensures res.Ok? && res.value.Some? ==>
      var rs := ListSpec(dir, hash).value;
      rs != [] && res.value.value == rs[0] && forall r :: r in rs ==> r.uploadedAt <= res.value.value.uploadedAt
  {
    var listed := List(dir, hash);
    match listed
    case Err(e) =>
      res := Err(e);
    case Ok(rs) =>
      res := Ok(if rs == [] then None else Some(rs[0]));
  }

  /** `loadContent(id)`: the text of the file `id` resolves to, given here as
      `readText(id)`; a failure is tagged `read` with the id. */
  function LoadContent(id: string, readText: string -> Result<string, string>): (r: Result<string, CsvRegistryError>)
    ensures r.Ok? <==> readText(id).Ok?
    ensures r.Ok? ==> r.value == readText(id).value
    ensures r.Err? ==> r.error.op == Read && r.error.file == Some(id) && r.error.message == readText(id).error
  {
    match readText(id)
    case Ok(text) => Ok(text)
    case Err(m) => Err(FsError(Read, m, Some(id)))
  }
}
