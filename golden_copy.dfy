/** The Golden Copy downloader: fetching a resolved snapshot into the save
    directory (skipping files already there), picking the CSV out of the ZIP
    archive and extracting it once, reading it in memory instead, and the
    configurable pipeline that ties these together. */
module GoldenCopy {
  import opened Wrappers
  import opened Strings
  import Paths
  import opened DateTimes
  import opened SnapshotUrl
  import opened Env
  import opened Tables

  const DefaultSaveDir: string := "./gc_downloads"

  datatype Error =
    | BadRequest(problem: UrlError)
    | TransferFailed(url: string)
    | HttpStatus(url: string, status: int)
    | FileNotFound(path: string)
    | BadZipFile(source: string)
    | NoCsvInZip
    | UnreadableCsv(source: string)
    | MissingColumns(names: seq<string>)
    | NoArchive

  /** What `download_for_date_in_memory` returns: the saved file's path (or
      `None`), or the table read in memory. */
  datatype Prepared = Saved(path: Option<string>) | Loaded(data: Result<Frame, Error>)

  // ---------------------------------------------------------------------
  // Naming the downloaded file

  /** The URL's last `/` segment, or `download-<unix seconds>.zip` when the
      URL ends in `/`: always a plain, non-empty file name. */
  function InitialFilename(url: string, now: int): (name: string)
    ensures name != [] && '/' !in name
    ensures LastSegment(url, '/') != [] ==> name == LastSegment(url, '/') && EndsWith(url, name)
    ensures LastSegment(url, '/') == [] ==> StartsWith(name, "download-") && EndsWith(name, ".zip")
  {
    var seg := LastSegment(url, '/');
    if seg != [] then seg else FallbackName(now)
  }

  /** `download-<unix seconds>.zip`. */
  function FallbackName(now: int): (n: string)
    ensures n != [] && '/' !in n
    ensures StartsWith(n, "download-") && EndsWith(n, ".zip")
  {
    var p, d, z := "download-", IntToString(now), ".zip";
    assert '/' !in p && '/' !in z;
    DecimalHasNoSlash(now);
    AffixShape(p, d, z);
    p + d + z
  }

  lemma DecimalHasNoSlash(now: int)
    ensures '/' !in IntToString(now)
  {
    var d := NatToString(if now < 0 then -now else now);
    assert forall k :: 0 <= k < |d| ==> IsDigit(d[k]);
  }

  lemma AffixShape(p: string, m: string, z: string)
    requires '/' !in p && '/' !in m && '/' !in z
    ensures StartsWith(p + m + z, p) && EndsWith(p + m + z, z) && '/' !in p + m + z
  {
    var n := p + m + z;
    assert n[..|p|] == p;
    assert n[|n| - |z|..] == z;
  }

  function InitialPath(saveDir: string, url: string, now: int): string
  {
    Paths.Join(saveDir, InitialFilename(url, now))
  }

  /** `filename=` at position `i`, letters in any case. */
  predicate KeyAt(cd: string, i: nat)
  {
    i + 9 <= |cd| && Lower(cd[i..i + 9]) == "filename="
  }

  /** Length of the run of non-`"` characters starting at `from`. */
  function QuoteFreeRun(s: string, from: nat): (n: nat)
    requires from <= |s|
    ensures from + n <= |s| && '"' !in s[from..from + n]
    ensures from + n == |s| || s[from + n] == '"'
    decreases |s| - from
  {
    if from == |s| || s[from] == '"' then 0
    else
      var n := 1 + QuoteFreeRun(s, from + 1);
      assert s[from..from + n] == [s[from]] + s[from + 1..from + n];
      n
  }

  /** What `filename="?([^"]+)"?` captures when its match starts at `i`:
      an optional quote is skipped, then the longest quote-free run, which
      must not be empty (if it is, no match starts at `i`). */
  function ValueAt(cd: string, i: nat): (v: Option<string>)
    requires KeyAt(cd, i)
    ensures v.Some? ==> v.value != [] && '"' !in v.value && Contains(cd, v.value)
  {
    var j := i + 9;
    var k := if j < |cd| && cd[j] == '"' then j + 1 else j;
    var n := QuoteFreeRun(cd, k);
    if n > 0 then
      assert OccursAt(cd, cd[k..k + n], k);
      Some(cd[k..k + n])
    else None
  }

  /** `re.search(r'filename="?([^"]+)"?', cd, re.I).group(1)` searched from `from`. */
  function DispositionFilenameFrom(cd: string, from: nat): (r: Option<string>)
    ensures r.Some? ==> r.value != [] && '"' !in r.value && Contains(cd, r.value)
    decreases |cd| - from
  {
    if from + 9 > |cd| then None
    else if KeyAt(cd, from) && ValueAt(cd, from).Some? then ValueAt(cd, from)
    else DispositionFilenameFrom(cd, from + 1)
  }

  function DispositionFilename(cd: string): (r: Option<string>)
    ensures r.Some? ==> r.value != [] && '"' !in r.value && Contains(cd, r.value)
  {
    DispositionFilenameFrom(cd, 0)
  }

  lemma {:induction false} DispositionFirstMatch(cd: string, from: nat, i: nat)
    requires from <= i && KeyAt(cd, i) && ValueAt(cd, i).Some?
    requires forall j :: from <= j < i ==> !KeyAt(cd, j)
    ensures DispositionFilenameFrom(cd, from) == ValueAt(cd, i)
    decreases i - from
  {
    if from < i {
      DispositionFirstMatch(cd, from + 1, i);
    }
  }

  /** The usual header form names the file between quotes. */
  lemma QuotedDisposition(name: string)
    requires name != [] && '"' !in name
    ensures DispositionFilename("attachment; filename=\"" + name + "\"") == Some(name)
  {
    var head := "attachment; filename=\"";
    var cd := head + name + "\"";
    assert forall j :: 0 <= j < 12 ==> cd[j] == head[j];
    forall j | 0 <= j < 12 ensures !KeyAt(cd, j) {
      assert head[j] != 'f' && head[j] != 'F';
      assert Lower(cd[j..j + 9])[0] == LowerChar(cd[j]);
    }
    assert cd[12..21] == "filename=";
    assert KeyAt(cd, 12);
    assert cd[21] == '"';
    var n := QuoteFreeRun(cd, 22);
    assert cd[22..22 + |name|] == name;
    assert cd[22 + |name|] == '"';
    QuoteFreeRunOver(cd, 22, |name|);
    DispositionFirstMatch(cd, 0, 12);
  }

  lemma {:induction false} QuoteFreeRunOver(s: string, from: nat, n: nat)
    requires from + n < |s| && '"' !in s[from..from + n] && s[from + n] == '"'
    ensures QuoteFreeRun(s, from) == n
    decreases n
  {
    if n > 0 {
      assert s[from] == s[from..from + n][0];
      assert s[from + 1..from + n] == s[from..from + n][1..];
      QuoteFreeRunOver(s, from + 1, n - 1);
    }
  }

  /** Without a `Content-Disposition` header the URL's name is kept. */
  lemma NoDispositionNoFilename()
    ensures DispositionFilename("") == None
  {
  }

  /** Where the body is written: the header's name wins over the URL's. */
  function SavePath(saveDir: string, url: string, now: int, disposition: string): (p: string)
  {
    match DispositionFilename(disposition)
    case Some(n) => Paths.Join(saveDir, n)
    case None => InitialPath(saveDir, url, now)
  }

  // ---------------------------------------------------------------------
  // Writing the body

  /** The bytes `f.write` receives: the non-empty chunks, in stream order. */
  function WrittenBytes(chunks: seq<Bytes>): Bytes
    decreases |chunks|
  {
    if chunks == [] then []
    else
      var last := chunks[|chunks| - 1];
      WrittenBytes(chunks[..|chunks| - 1]) + (if last != [] then last else [])
  }

  /** Skipping empty chunks loses nothing: the file holds the whole body. */
  lemma {:induction false} WrittenBytesIsBody(chunks: seq<Bytes>)
    ensures WrittenBytes(chunks) == Concat(chunks)
    decreases |chunks|
  {
    if chunks != [] {
      var init, last := chunks[..|chunks| - 1], chunks[|chunks| - 1];
      WrittenBytesIsBody(init);
      ConcatAppend(init, last);
      assert init + [last] == chunks;
    }
  }

  /** The decision `download_file` takes once its two candidate paths are
      known: `initial` from the URL, `target` where the body goes. */
  function DownloadTo(files: map<string, Bytes>, initial: string, target: string, url: string, resp: Response)
    : (e: Effect<Result<string, Error>>)
    ensures initial in files ==> e == Effect(files, [], Ok(initial))
    ensures initial !in files ==> e.fetched == [url]
    ensures e.result.Ok? ==> e.result.value in e.files
  {
    if initial in files then Effect(files, [], Ok(initial))
    else match resp
      case ConnectionFailed => Effect(files, [url], Err(TransferFailed(url)))
      case Reply(status, _, chunks) =>
        if IsHttpError(status) then Effect(files, [url], Err(HttpStatus(url, status)))
        else Effect(files[target := WrittenBytes(chunks)], [url], Ok(target))
  }

  function DispositionOf(resp: Response): string
  {
    if resp.Reply? then resp.disposition else ""
  }

  /** `download_file(url)` over the files `files`, the server answering `resp`. */
  function DownloadFileSpec(files: map<string, Bytes>, saveDir: string, url: string, now: int, resp: Response)
    : Effect<Result<string, Error>>
  {
    DownloadTo(files, InitialPath(saveDir, url, now), SavePath(saveDir, url, now, DispositionOf(resp)), url, resp)
  }

  /** `DownloadFileSpec` once its two candidate paths are known. */
  lemma DownloadFileSpecAt(files: map<string, Bytes>, saveDir: string, url: string, now: int, resp: Response,
                           initial: string, target: string)
    requires initial == InitialPath(saveDir, url, now)
    requires target == SavePath(saveDir, url, now, DispositionOf(resp))
    ensures DownloadFileSpec(files, saveDir, url, now, resp) == DownloadTo(files, initial, target, url, resp)
  {
  }


  lemma DownloadToWrites(files: map<string, Bytes>, initial: string, target: string, url: string,
                         status: int, cd: string, chunks: seq<Bytes>)
    requires initial !in files && !IsHttpError(status)
    ensures DownloadTo(files, initial, target, url, Reply(status, cd, chunks))
         == Effect(files[target := Concat(chunks)], [url], Ok(target))
  {
    WrittenBytesIsBody(chunks);
  }

  /** A file already at the URL's path is returned as it is: nothing is
      fetched and nothing is written. */
  lemma CacheHitIsNoop(files: map<string, Bytes>, saveDir: string, url: string, now: int, resp: Response)
    requires InitialPath(saveDir, url, now) in files
    ensures DownloadFileSpec(files, saveDir, url, now, resp)
         == Effect(files, [], Ok(InitialPath(saveDir, url, now)))
  {
  }

  /** A successful transfer fetches the URL once and writes the whole body at
      the save path (the header's name if it gives one); no other file
      changes. */
  lemma DownloadWritesBody(files: map<string, Bytes>, saveDir: string, url: string, now: int,
                           status: int, cd: string, chunks: seq<Bytes>)
    requires InitialPath(saveDir, url, now) !in files && !IsHttpError(status)
    ensures DownloadFileSpec(files, saveDir, url, now, Reply(status, cd, chunks))
         == Effect(files[SavePath(saveDir, url, now, cd) := Concat(chunks)], [url], Ok(SavePath(saveDir, url, now, cd)))
  {
    DownloadToWrites(files, InitialPath(saveDir, url, now), SavePath(saveDir, url, now, cd), url, status, cd, chunks);
  }

  /** The save path is the URL's own name unless the header names the file. */
  lemma SavePathChoice(saveDir: string, url: string, now: int, cd: string)
    ensures DispositionFilename(cd).None? ==> SavePath(saveDir, url, now, cd) == InitialPath(saveDir, url, now)
    ensures DispositionFilename(cd).Some? ==>
      SavePath(saveDir, url, now, cd) == Paths.Join(saveDir, DispositionFilename(cd).value)
  {
  }

  /** A failed transfer (no connection, or a 4xx/5xx status) writes nothing. */
  lemma FailedTransferWritesNothing(files: map<string, Bytes>, saveDir: string, url: string, now: int, resp: Response)
    requires InitialPath(saveDir, url, now) !in files
    requires resp.ConnectionFailed? || IsHttpError(resp.status)
    ensures DownloadFileSpec(files, saveDir, url, now, resp).files == files
    ensures DownloadFileSpec(files, saveDir, url, now, resp).fetched == [url]
    ensures DownloadFileSpec(files, saveDir, url, now, resp).result.Err?
  {
  }

  /** A second call for the same URL does nothing once the first one stored
      the file under the URL's own name. */
  lemma SecondDownloadIsNoop(files: map<string, Bytes>, saveDir: string, url: string, now: int, now2: int,
                             resp: Response, resp2: Response)
    requires LastSegment(url, '/') != []
    requires DownloadFileSpec(files, saveDir, url, now, resp).result == Ok(InitialPath(saveDir, url, now))
    ensures var e := DownloadFileSpec(files, saveDir, url, now, resp);
      DownloadFileSpec(e.files, saveDir, url, now2, resp2) == Effect(e.files, [], Ok(InitialPath(saveDir, url, now)))
  {
    var p := InitialPath(saveDir, url, now);
    assert InitialPath(saveDir, url, now2) == p;
    var e := DownloadFileSpec(files, saveDir, url, now, resp);
    assert p in e.files;
    CacheHitIsNoop(e.files, saveDir, url, now2, resp2);
  }

  /** When the header renames the file, the URL's path is still absent after
      the download, so the next call for the same URL fetches it again. */
  lemma RenamedDownloadRepeats(files: map<string, Bytes>, saveDir: string, url: string, now: int,
                               status: int, cd: string, chunks: seq<Bytes>, resp2: Response)
    requires InitialPath(saveDir, url, now) !in files && !IsHttpError(status)
    requires SavePath(saveDir, url, now, cd) != InitialPath(saveDir, url, now)
    ensures var e := DownloadFileSpec(files, saveDir, url, now, Reply(status, cd, chunks));
      DownloadFileSpec(e.files, saveDir, url, now, resp2).fetched == [url]
  {
    var p, q := InitialPath(saveDir, url, now), SavePath(saveDir, url, now, cd);
    DownloadWritesBody(files, saveDir, url, now, status, cd, chunks);
    var after := files[q := Concat(chunks)];
    assert p !in after;
  }

  // ---------------------------------------------------------------------
  // Choosing and extracting the CSV member

  predicate IsCsvName(name: string) { EndsWith(Lower(name), ".csv") }

  /** Index of the first name ending in `.csv` (any letter case). */
  function FirstCsvFrom(names: seq<string>, from: nat): (r: Option<nat>)
    ensures r.Some? ==> from <= r.value < |names| && IsCsvName(names[r.value])
    ensures r.Some? ==> forall k :: from <= k < r.value ==> !IsCsvName(names[k])
    ensures r.None? ==> forall k :: from <= k < |names| ==> !IsCsvName(names[k])
    decreases |names| - from
  {
    if from >= |names| then None
    else if IsCsvName(names[from]) then Some(from)
    else FirstCsvFrom(names, from + 1)
  }

  function FirstCsv(names: seq<string>): (r: Option<nat>)
    ensures r.Some? ==> r.value < |names| && IsCsvName(names[r.value])
    ensures r.Some? ==> forall k :: 0 <= k < r.value ==> !IsCsvName(names[k])
    ensures r.None? ==> forall k :: 0 <= k < |names| ==> !IsCsvName(names[k])
  {
    FirstCsvFrom(names, 0)
  }

  /** The member `zipfile` reads for a name: the last one listed under it. */
  function LastEntry(entries: seq<Entry>, name: string): (k: nat)
    requires name in Names(entries)
    ensures k < |entries| && entries[k].name == name
    ensures forall j :: k < j < |entries| ==> entries[j].name != name
    decreases |entries|
  {
    var n := |entries| - 1;
    if entries[n].name == name then n
    else
      assert Names(entries) == Names(entries[..n]) + [entries[n].name];
      LastEntry(entries[..n], name)
  }

  function EntryData(entries: seq<Entry>, name: string): Bytes
    requires name in Names(entries)
  {
    entries[LastEntry(entries, name)].data
  }

  /** `join(extract_dir, basename(entry))`: the flattened destination. */
  function CsvPath(extractDir: string, name: string): (p: string)
    ensures Paths.Basename(p) == Paths.Basename(name)
  {
    Paths.BasenameOfJoin(extractDir, Paths.Basename(name));
    Paths.Join(extractDir, Paths.Basename(name))
  }

  /** The extraction step over explicit paths: nothing happens when the
      destination `csvPath` exists; otherwise `data` is written at `target`
      and, when `zipfile.extract` reported the member at `extracted` rather
      than at the destination, that file is moved to the destination. */
  function ExtractAt(files: map<string, Bytes>, csvPath: string, target: string, extracted: string, data: Bytes)
    : map<string, Bytes>
  {
    if csvPath in files then files
    else
      var written := files[target := data];
      if extracted != csvPath && extracted in written then
        (written - {extracted})[csvPath := written[extracted]]
      else written
  }

  /** When the member lands where `extract` says it does, the destination
      holds its bytes, the sub-folder copy is gone, and nothing else changes. */
  lemma ExtractAtPlaces(files: map<string, Bytes>, csvPath: string, extracted: string, data: Bytes)
    requires csvPath !in files
    ensures ExtractAt(files, csvPath, extracted, extracted, data)
         == if extracted != csvPath then (files - {extracted})[csvPath := data] else files[csvPath := data]
  {
    var written := files[extracted := data];
    if extracted != csvPath {
      assert extracted in written && written[extracted] == data;
      assert (written - {extracted}) == files - {extracted};
    }
  }

  /** The extraction done by `unzip_and_read_csv` for member `name`. */
  function ExtractCsv(files: map<string, Bytes>, extractDir: string, entries: seq<Entry>, name: string)
    : map<string, Bytes>
    requires name in Names(entries)
  {
    ExtractAt(files, CsvPath(extractDir, name), Paths.ExtractTarget(extractDir, name),
              Paths.Join(extractDir, name), EntryData(entries, name))
  }

  /** An existing destination is left as it is. */
  lemma ExtractSkipsExisting(files: map<string, Bytes>, extractDir: string, entries: seq<Entry>, name: string)
    requires name in Names(entries) && CsvPath(extractDir, name) in files
    ensures ExtractCsv(files, extractDir, entries, name) == files
  {
  }

  /** For an ordinary member name the CSV ends up at the flattened
      destination with the member's bytes, the sub-folder copy is gone, and
      every other file is as before. */
  lemma ExtractPlacesMember(files: map<string, Bytes>, extractDir: string, entries: seq<Entry>, name: string)
    requires name in Names(entries) && Paths.PlainMemberName(name)
    requires CsvPath(extractDir, name) !in files
    ensures var csvPath, extracted, data := CsvPath(extractDir, name), Paths.Join(extractDir, name), EntryData(entries, name);
      ExtractCsv(files, extractDir, entries, name)
        == if extracted != csvPath then (files - {extracted})[csvPath := data] else files[csvPath := data]
  {
    assert Paths.ExtractTarget(extractDir, name) == Paths.Join(extractDir, name);
    ExtractAtPlaces(files, CsvPath(extractDir, name), Paths.Join(extractDir, name), EntryData(entries, name));
  }

  /** Extracting twice is extracting once. */
  lemma ExtractIdempotent(files: map<string, Bytes>, extractDir: string, entries: seq<Entry>, name: string)
    requires name in Names(entries) && Paths.PlainMemberName(name)
    ensures var r := ExtractCsv(files, extractDir, entries, name);
      ExtractCsv(r, extractDir, entries, name) == r
  {
    if CsvPath(extractDir, name) !in files {
      ExtractPlacesMember(files, extractDir, entries, name);
      assert CsvPath(extractDir, name) in ExtractCsv(files, extractDir, entries, name);
    }
  }

  function ReadCsv(files: map<string, Bytes>, path: string, parse: Bytes -> Option<Frame>): (r: Result<Frame, Error>)
    ensures r.Ok? ==> path in files && parse(files[path]) == Some(r.value)
    ensures path !in files ==> r == Err(FileNotFound(path))
    ensures r.Err? ==> r.error.FileNotFound? || r.error.UnreadableCsv?
  {
    if path !in files then Err(FileNotFound(path))
    else match parse(files[path])
      case None => Err(UnreadableCsv(path))
      case Some(t) => Ok(t)
  }

  /** `unzip_and_read_csv(zip_path, extract_dir)`. */
  function UnzipSpec(files: map<string, Bytes>, zipPath: string, extractDir: string,
                     unzip: Bytes -> Option<seq<Entry>>, parse: Bytes -> Option<Frame>)
    : (e: Effect<Result<Frame, Error>>)
    ensures e.fetched == []
    ensures e.result.Err? ==> !e.result.error.MissingColumns?
  {
    if zipPath !in files then Effect(files, [], Err(FileNotFound(zipPath)))
    else match unzip(files[zipPath])
      case None => Effect(files, [], Err(BadZipFile(zipPath)))
      case Some(entries) =>
        match FirstCsv(Names(entries))
        case None => Effect(files, [], Err(NoCsvInZip))
        case Some(i) =>
          var name := entries[i].name;
          var after := ExtractCsv(files, extractDir, entries, name);
          Effect(after, [], ReadCsv(after, CsvPath(extractDir, name), parse))
  }

  /** `UnzipSpec` once the archive's first CSV member and its paths are named. */
  lemma UnzipSpecAt(files: map<string, Bytes>, zipPath: string, extractDir: string,
                    unzip: Bytes -> Option<seq<Entry>>, parse: Bytes -> Option<Frame>,
                    entries: seq<Entry>, i: nat, csvPath: string, target: string, extracted: string, data: Bytes)
    requires zipPath in files && unzip(files[zipPath]) == Some(entries) && FirstCsv(Names(entries)) == Some(i)
    requires csvPath == CsvPath(extractDir, entries[i].name)
    requires target == Paths.ExtractTarget(extractDir, entries[i].name)
    requires extracted == Paths.Join(extractDir, entries[i].name)
    requires data == EntryData(entries, entries[i].name)
    ensures var after := ExtractAt(files, csvPath, target, extracted, data);
      UnzipSpec(files, zipPath, extractDir, unzip, parse) == Effect(after, [], ReadCsv(after, csvPath, parse))
  {
  }

  /** The table comes from the first CSV member in listing order; an archive
      without one is an error and leaves the files alone. */
  lemma UnzipReadsFirstCsv(files: map<string, Bytes>, zipPath: string, extractDir: string,
                           unzip: Bytes -> Option<seq<Entry>>, parse: Bytes -> Option<Frame>)
    requires zipPath in files && unzip(files[zipPath]).Some?
    ensures var entries := unzip(files[zipPath]).value;
            var e := UnzipSpec(files, zipPath, extractDir, unzip, parse);
      && e.fetched == []
      && ((forall k :: 0 <= k < |entries| ==> !IsCsvName(entries[k].name)) <==> e.result == Err(NoCsvInZip))
      && (e.result == Err(NoCsvInZip) ==> e.files == files)
  {
    var entries := unzip(files[zipPath]).value;
    var names := Names(entries);
    match FirstCsv(names)
    case None =>
      forall k | 0 <= k < |entries| ensures !IsCsvName(entries[k].name) {
        assert names[k] == entries[k].name;
      }
    case Some(i) =>
      assert IsCsvName(entries[i].name);
      UnzipSpecAt(files, zipPath, extractDir, unzip, parse, entries, i, CsvPath(extractDir, entries[i].name),
                  Paths.ExtractTarget(extractDir, entries[i].name), Paths.Join(extractDir, entries[i].name),
                  EntryData(entries, entries[i].name));
  }

  /** For an ordinary member name, the table read is the member's own bytes
      parsed, whether or not it had been extracted earlier with those bytes. */
  lemma UnzipParsesMember(files: map<string, Bytes>, zipPath: string, extractDir: string,
                          unzip: Bytes -> Option<seq<Entry>>, parse: Bytes -> Option<Frame>)
    requires zipPath in files && unzip(files[zipPath]).Some?
    requires var entries := unzip(files[zipPath]).value;
      FirstCsv(Names(entries)).Some? && Paths.PlainMemberName(entries[FirstCsv(Names(entries)).value].name)
    requires var entries := unzip(files[zipPath]).value;
             var name := entries[FirstCsv(Names(entries)).value].name;
      CsvPath(extractDir, name) !in files || files[CsvPath(extractDir, name)] == EntryData(entries, name)
    ensures var entries := unzip(files[zipPath]).value;
            var name := entries[FirstCsv(Names(entries)).value].name;
      UnzipSpec(files, zipPath, extractDir, unzip, parse).result
        == (match parse(EntryData(entries, name))
            case None => Err(UnreadableCsv(CsvPath(extractDir, name)))
            case Some(t) => Ok(t))
  {
    var entries := unzip(files[zipPath]).value;
    var name := entries[FirstCsv(Names(entries)).value].name;
    if CsvPath(extractDir, name) !in files {
      ExtractPlacesMember(files, extractDir, entries, name);
    }
  }

  /** Reading an archive keeps the archive itself (when the CSV lands
      elsewhere), and reading it again changes nothing and reads the same
      table. */
  lemma UnzipAgain(files: map<string, Bytes>, zipPath: string, extractDir: string,
                   unzip: Bytes -> Option<seq<Entry>>, parse: Bytes -> Option<Frame>)
    requires zipPath in files && unzip(files[zipPath]).Some?
    requires var entries := unzip(files[zipPath]).value;
      && FirstCsv(Names(entries)).Some?
      && Paths.PlainMemberName(entries[FirstCsv(Names(entries)).value].name)
      && CsvPath(extractDir, entries[FirstCsv(Names(entries)).value].name) != zipPath
      && Paths.Join(extractDir, entries[FirstCsv(Names(entries)).value].name) != zipPath
    ensures var e := UnzipSpec(files, zipPath, extractDir, unzip, parse);
      && zipPath in e.files && e.files[zipPath] == files[zipPath]
      && UnzipSpec(e.files, zipPath, extractDir, unzip, parse) == e
  {
    var entries := unzip(files[zipPath]).value;
    var i := FirstCsv(Names(entries)).value;
    var name := entries[i].name;
    var csvPath, target, extracted, data :=
      CsvPath(extractDir, name), Paths.ExtractTarget(extractDir, name), Paths.Join(extractDir, name),
      EntryData(entries, name);
    UnzipSpecAt(files, zipPath, extractDir, unzip, parse, entries, i, csvPath, target, extracted, data);
    var after := ExtractAt(files, csvPath, target, extracted, data);
    if csvPath !in files {
      ExtractPlacesMember(files, extractDir, entries, name);
    }
    assert zipPath in after && after[zipPath] == files[zipPath];
    ExtractIdempotent(files, extractDir, entries, name);
    UnzipSpecAt(after, zipPath, extractDir, unzip, parse, entries, i, csvPath, target, extracted, data);
  }

  // ---------------------------------------------------------------------
  // Reading the archive in memory

  /** `download_zip_and_read_csv_in_memory(url, columns)` once the server has
      answered `resp`; `columns == []` stands for no column selection. */
  function ReadZipInMemory(resp: Response, url: string, columns: seq<string>,
                           unzip: Bytes -> Option<seq<Entry>>, parse: Bytes -> Option<Frame>)
    : (r: Result<Frame, Error>)
    ensures resp.ConnectionFailed? ==> r == Err(TransferFailed(url))
    ensures resp.Reply? && IsHttpError(resp.status) ==> r == Err(HttpStatus(url, resp.status))
    ensures r.Ok? && columns != [] ==> forall c :: c in r.value.columns <==> c in columns
  {
    match resp
    case ConnectionFailed => Err(TransferFailed(url))
    case Reply(status, _, chunks) =>
      if IsHttpError(status) then Err(HttpStatus(url, status))
      else match unzip(Concat(chunks))
        case None => Err(BadZipFile(url))
        case Some(entries) =>
          match FirstCsv(Names(entries))
          case None => Err(NoCsvInZip)
          case Some(i) =>
            var name := entries[i].name;
            match parse(EntryData(entries, name))
            case None => Err(UnreadableCsv(name))
            case Some(t) =>
              if columns == [] then Ok(t)
              else match UseCols(t, columns)
                case Err(missing) => Err(MissingColumns(missing))
                case Ok(p) => Ok(p)
  }

  /** Both read paths see the same table: reading the archive in memory gives
      what extracting it to disk and reading the file gives. */
  lemma MemoryMatchesDisk(files: map<string, Bytes>, zipPath: string, extractDir: string, url: string,
                          status: int, cd: string, chunks: seq<Bytes>,
                          unzip: Bytes -> Option<seq<Entry>>, parse: Bytes -> Option<Frame>)
    requires !IsHttpError(status) && zipPath in files && files[zipPath] == Concat(chunks)
    requires unzip(Concat(chunks)).Some?
    requires var entries := unzip(Concat(chunks)).value;
      FirstCsv(Names(entries)).Some? && Paths.PlainMemberName(entries[FirstCsv(Names(entries)).value].name)
    requires var entries := unzip(Concat(chunks)).value;
      CsvPath(extractDir, entries[FirstCsv(Names(entries)).value].name) !in files
    ensures var mem := ReadZipInMemory(Reply(status, cd, chunks), url, [], unzip, parse);
            var disk := UnzipSpec(files, zipPath, extractDir, unzip, parse).result;
      mem.Ok? <==> disk.Ok?
    ensures var mem := ReadZipInMemory(Reply(status, cd, chunks), url, [], unzip, parse);
            var disk := UnzipSpec(files, zipPath, extractDir, unzip, parse).result;
      mem.Ok? ==> mem.value == disk.value
  {
    var entries := unzip(Concat(chunks)).value;
    var name := entries[FirstCsv(Names(entries)).value].name;
    UnzipParsesMember(files, zipPath, extractDir, unzip, parse);
    var mem := ReadZipInMemory(Reply(status, cd, chunks), url, [], unzip, parse);
    assert mem == match parse(EntryData(entries, name))
                  case None => Err(UnreadableCsv(name))
                  case Some(t) => Ok(t);
  }

  /** Unlike the post-read filter, the in-memory read refuses a request that
      names a column the file does not have. */
  lemma MemoryRejectsMissingColumns(resp: Response, url: string, columns: seq<string>,
                                    unzip: Bytes -> Option<seq<Entry>>, parse: Bytes -> Option<Frame>)
    requires ReadZipInMemory(resp, url, [], unzip, parse).Ok?
    requires columns != []
    requires Missing(columns, ReadZipInMemory(resp, url, [], unzip, parse).value.columns) != []
    ensures ReadZipInMemory(resp, url, columns, unzip, parse)
         == Err(MissingColumns(Missing(columns, ReadZipInMemory(resp, url, [], unzip, parse).value.columns)))
  {
  }

  // ---------------------------------------------------------------------
  // Preparing a day's snapshot

  function AsOption(e: Effect<Result<string, Error>>): (o: Effect<Option<string>>)
    ensures o.files == e.files && o.fetched == e.fetched
    ensures o.result.Some? <==> e.result.Ok?
    ensures o.result.Some? ==> o.result.value == e.result.value
  {
    Effect(e.files, e.fetched, if e.result.Ok? then Some(e.result.value) else None)
  }

  /** Resolving a snapshot's URL and downloading it; `None` on any failure. */
  function FetchSnapshot(files: map<string, Bytes>, pageUrl: string, saveDir: string, date: string, time: string,
                         filetype: string, variant: string, now: int, server: string -> Response)
    : Effect<Option<string>>
  {
    match FindDownloadUrl(pageUrl, date, time, filetype, variant)
    case Err(_) => Effect(files, [], None)
    case Ok(url) => AsOption(DownloadFileSpec(files, saveDir, url, now, server(url)))
  }

  /** `prepare_download(date)`: the daily LEI-record CSV at midnight. */
  function PrepareSpec(files: map<string, Bytes>, pageUrl: string, saveDir: string, date: string, now: int,
                       server: string -> Response)
    : Effect<Option<string>>
  {
    FetchSnapshot(files, pageUrl, saveDir, date, "00:00", "csv", "lei2", now, server)
  }

  lemma FetchRequestsResolvedUrl(files: map<string, Bytes>, pageUrl: string, saveDir: string, date: string,
                                 time: string, filetype: string, variant: string, now: int,
                                 server: string -> Response)
    ensures var e := FetchSnapshot(files, pageUrl, saveDir, date, time, filetype, variant, now, server);
      FindDownloadUrl(pageUrl, date, time, filetype, variant).Err? ==> e == Effect(files, [], None)
    ensures var e := FetchSnapshot(files, pageUrl, saveDir, date, time, filetype, variant, now, server);
      e.fetched != [] ==> (FindDownloadUrl(pageUrl, date, time, filetype, variant).Ok?
        && e.fetched == [FindDownloadUrl(pageUrl, date, time, filetype, variant).value])
  {
    match FindDownloadUrl(pageUrl, date, time, filetype, variant)
    case Err(_) =>
    case Ok(url) =>
      var d := DownloadFileSpec(files, saveDir, url, now, server(url));
      assert d.fetched == [] || d.fetched == [url];
  }

  /** The only request `prepare_download` makes is for the daily LEI-record
      CSV at midnight; a date that does not parse gives `None` with nothing
      fetched. */
  lemma PrepareRequestsDailyCsv(files: map<string, Bytes>, pageUrl: string, saveDir: string, date: string,
                                now: int, server: string -> Response)
    ensures var e := PrepareSpec(files, pageUrl, saveDir, date, now, server);
      FindDownloadUrl(pageUrl, date, "00:00", "csv", "lei2").Err? ==> e == Effect(files, [], None)
    ensures var e := PrepareSpec(files, pageUrl, saveDir, date, now, server);
      e.fetched != [] ==> (FindDownloadUrl(pageUrl, date, "00:00", "csv", "lei2").Ok?
        && e.fetched == [FindDownloadUrl(pageUrl, date, "00:00", "csv", "lei2").value])
  {
    FetchRequestsResolvedUrl(files, pageUrl, saveDir, date, "00:00", "csv", "lei2", now, server);
  }

  /** A resolved snapshot URL ends in a file name, never in `/`. */
  lemma UrlEndsWithName(pageUrl: string, date: string, time: string, filetype: string, variant: string)
    requires FindDownloadUrl(pageUrl, date, time, filetype, variant).Ok?
    ensures LastSegment(FindDownloadUrl(pageUrl, date, time, filetype, variant).value, '/') != []
  {
    var url := FindDownloadUrl(pageUrl, date, time, filetype, variant).value;
    var ext := UrlExtension(pageUrl, date, time, filetype, variant);
    assert url[|url| - 1] == ext[|ext| - 1];
    LastSegmentOfUnterminated(url, '/');
  }

  lemma LastSegmentOfUnterminated(s: string, sep: char)
    requires s != [] && s[|s| - 1] != sep
    ensures LastSegment(s, sep) != []
  {
  }

  /** Once the URL's file is present, fetching that snapshot again is a
      cache hit, whatever else has changed on disk. */
  lemma FetchHitsStoredFile(files: map<string, Bytes>, pageUrl: string, saveDir: string, date: string,
                            time: string, filetype: string, variant: string, now: int, server: string -> Response)
    requires FindDownloadUrl(pageUrl, date, time, filetype, variant).Ok?
    requires InitialPath(saveDir, FindDownloadUrl(pageUrl, date, time, filetype, variant).value, now) in files
    ensures FetchSnapshot(files, pageUrl, saveDir, date, time, filetype, variant, now, server)
         == Effect(files, [], Some(InitialPath(saveDir, FindDownloadUrl(pageUrl, date, time, filetype, variant).value, now)))
  {
    var url := FindDownloadUrl(pageUrl, date, time, filetype, variant).value;
    CacheHitIsNoop(files, saveDir, url, now, server(url));
  }

  /** The snapshot of a day at a given time is stored as
      `<save_dir>/YYYYMMDD-HHMM<ext>`. */
  lemma SnapshotFileName(pageUrl: string, saveDir: string, dt: DateTime, filetype: string, variant: string, now: int)
    requires dt.IsValid() && Lower(filetype) in ExtByType && '/' !in ExtByType[Lower(filetype)]
    ensures FindDownloadUrl(pageUrl, IsoDate(dt), IsoTime(dt), filetype, variant).Ok?
    ensures InitialPath(saveDir, FindDownloadUrl(pageUrl, IsoDate(dt), IsoTime(dt), filetype, variant).value, now)
         == Paths.Join(saveDir, TimeToken(dt) + ExtByType[Lower(filetype)])
  {
    CanonicalDateResolves(pageUrl, dt, filetype, variant);
    var base := RStrip(pageUrl, '/') + "/" + Lower(variant) + "/";
    var name := TimeToken(dt) + ExtByType[Lower(filetype)];
    assert FindDownloadUrl(pageUrl, IsoDate(dt), IsoTime(dt), filetype, variant).value == base + name;
    TokenHasNoSlash(TimeToken(dt));
    assert '/' !in name;
    InitialPathOfName(saveDir, base, name, now);
  }

  lemma TokenHasNoSlash(t: string)
    requires |t| == 13 && t[8] == '-' && AllDigits(t[..8]) && AllDigits(t[9..])
    ensures '/' !in t
  {
    forall k | 0 <= k < |t| ensures t[k] != '/' {
      if k < 8 {
        assert t[..8][k] == t[k];
      } else if k > 8 {
        assert t[9..][k - 9] == t[k];
      }
    }
  }

  /** A URL ending in `/<name>` is saved under `name`. */
  lemma InitialPathOfName(saveDir: string, base: string, name: string, now: int)
    requires name != [] && '/' !in name && base != [] && base[|base| - 1] == '/'
    ensures InitialPath(saveDir, base + name, now) == Paths.Join(saveDir, name)
  {
    Paths.LastSegmentAfterSep(base, name);
  }

  /** A day's LEI-record snapshot already stored as `<save_dir>/YYYYMMDD-0000.csv`
      is returned without a request. */
  lemma PrepareFindsStoredSnapshot(files: map<string, Bytes>, pageUrl: string, saveDir: string, dt: DateTime,
                                   now: int, server: string -> Response)
    requires dt.IsValid() && dt.hour == 0 && dt.minute == 0
    requires Paths.Join(saveDir, TimeToken(dt) + ".csv") in files
    ensures PrepareSpec(files, pageUrl, saveDir, IsoDate(dt), now, server)
         == Effect(files, [], Some(Paths.Join(saveDir, TimeToken(dt) + ".csv")))
  {
    assert IsoTime(dt) == "00:00";
    LowerOfLowerCase("csv");
    SnapshotFileName(pageUrl, saveDir, dt, "csv", "lei2", now);
    FetchHitsStoredFile(files, pageUrl, saveDir, IsoDate(dt), "00:00", "csv", "lei2", now, server);
  }

  /** Once a snapshot was stored under the URL's own file name, fetching it
      again makes no request. */
  lemma FetchTwiceFetchesOnce(files: map<string, Bytes>, pageUrl: string, saveDir: string, date: string,
                              time: string, filetype: string, variant: string,
                              now: int, now2: int, server: string -> Response, server2: string -> Response)
    requires FindDownloadUrl(pageUrl, date, time, filetype, variant).Ok?
    requires var url := FindDownloadUrl(pageUrl, date, time, filetype, variant).value;
      FetchSnapshot(files, pageUrl, saveDir, date, time, filetype, variant, now, server).result
        == Some(InitialPath(saveDir, url, now))
    ensures var e := FetchSnapshot(files, pageUrl, saveDir, date, time, filetype, variant, now, server);
      FetchSnapshot(e.files, pageUrl, saveDir, date, time, filetype, variant, now2, server2)
        == Effect(e.files, [], e.result)
  {
    var url := FindDownloadUrl(pageUrl, date, time, filetype, variant).value;
    UrlEndsWithName(pageUrl, date, time, filetype, variant);
    SecondDownloadIsNoop(files, saveDir, url, now, now2, server(url), server2(url));
  }

  /** Preparing the same day twice fetches at most once, as long as the first
      transfer kept the URL's own file name. */
  lemma PrepareTwiceFetchesOnce(files: map<string, Bytes>, pageUrl: string, saveDir: string, date: string,
                                now: int, now2: int, server: string -> Response, server2: string -> Response)
    requires FindDownloadUrl(pageUrl, date, "00:00", "csv", "lei2").Ok?
    requires var url := FindDownloadUrl(pageUrl, date, "00:00", "csv", "lei2").value;
      PrepareSpec(files, pageUrl, saveDir, date, now, server).result == Some(InitialPath(saveDir, url, now))
    ensures var e := PrepareSpec(files, pageUrl, saveDir, date, now, server);
      PrepareSpec(e.files, pageUrl, saveDir, date, now2, server2) == Effect(e.files, [], e.result)
  {
    FetchTwiceFetchesOnce(files, pageUrl, saveDir, date, "00:00", "csv", "lei2", now, now2, server, server2);
  }

  /** `prepare_download_in_memory(date, columns)`: a failure is passed on. */
  function PrepareInMemorySpec(files: map<string, Bytes>, pageUrl: string, date: string, columns: seq<string>,
                               server: string -> Response,
                               unzip: Bytes -> Option<seq<Entry>>, parse: Bytes -> Option<Frame>)
    : (r: Effect<Result<Frame, Error>>)
    ensures r.files == files
    ensures FindDownloadUrl(pageUrl, date, "00:00", "csv", "lei2").Err? ==>
      r.fetched == [] && r.result == Err(BadRequest(FindDownloadUrl(pageUrl, date, "00:00", "csv", "lei2").error))
    ensures FindDownloadUrl(pageUrl, date, "00:00", "csv", "lei2").Ok? ==>
      r.fetched == [FindDownloadUrl(pageUrl, date, "00:00", "csv", "lei2").value]
  {
    match FindDownloadUrl(pageUrl, date, "00:00", "csv", "lei2")
    case Err(problem) => Effect(files, [], Err(BadRequest(problem)))
    case Ok(url) => Effect(files, [url], ReadZipInMemory(server(url), url, columns, unzip, parse))
  }

  // ---------------------------------------------------------------------
  // The configurable pipeline

  /** The columns a run asks for; `[]` means the whole file. */
  function Requested(useFull: bool, essential: seq<string>): seq<string>
  {
    if !useFull && essential != [] then essential else []
  }

  /** The in-memory branch: nothing on disk changes. */
  function MemoryRun(e: Effect<Result<Frame, Error>>): Effect<Result<Table, Error>>
  {
    Effect(e.files, e.fetched, if e.result.Ok? then Ok(e.result.value) else Err(e.result.error))
  }

  /** The disk branch once the archive has been fetched (`d`): extract and
      read it into the default directory, then keep the requested columns
      that exist. */
  function DiskRun(d: Effect<Option<string>>, useFull: bool, essential: seq<string>,
                   unzip: Bytes -> Option<seq<Entry>>, parse: Bytes -> Option<Frame>)
    : Effect<Result<Table, Error>>
  {
    match d.result
    case None => Effect(d.files, d.fetched, Err(NoArchive))
    case Some(path) =>
      var u := UnzipSpec(d.files, path, DefaultSaveDir, unzip, parse);
      Effect(u.files, d.fetched, Narrow(u.result, useFull, essential))
  }

  /** The column filter applied after a disk read: the requested columns
      that exist, in request order. */
  function Narrow(read: Result<Frame, Error>, useFull: bool, essential: seq<string>): Result<Table, Error>
  {
    match read
    case Err(err) => Err(err)
    case Ok(t) => if Requested(useFull, essential) != [] then Ok(Project(t, essential)) else Ok(t)
  }

  /** `download_with_config(date, save_to_disk, use_full_dataset, essential_columns, save_dir)`. */
  function ConfigSpec(files: map<string, Bytes>, date: string, saveToDisk: bool, useFull: bool,
                      essential: seq<string>, saveDir: string, now: int, server: string -> Response,
                      unzip: Bytes -> Option<seq<Entry>>, parse: Bytes -> Option<Frame>)
    : Effect<Result<Table, Error>>
  {
    if !saveToDisk then
      MemoryRun(PrepareInMemorySpec(files, GoldenCopyPublishes, date, Requested(useFull, essential), server, unzip, parse))
    else
      DiskRun(PrepareSpec(files, GoldenCopyPublishes, saveDir, date, now, server), useFull, essential, unzip, parse)
  }

  lemma DiskRunKeepsRequestOrder(d: Effect<Option<string>>, essential: seq<string>,
                                 unzip: Bytes -> Option<seq<Entry>>, parse: Bytes -> Option<Frame>)
    requires essential != []
    ensures var e := DiskRun(d, false, essential, unzip, parse);
      !e.result.Err? || !e.result.error.MissingColumns?
    ensures var e := DiskRun(d, false, essential, unzip, parse);
      e.result.Ok? ==> (SubsequenceOf(e.result.value.columns, essential)
                        && forall c :: c in e.result.value.columns ==> c in essential)
  {
    if d.result.Some? {
      NarrowKeepsRequestOrder(UnzipSpec(d.files, d.result.value, DefaultSaveDir, unzip, parse).result, essential);
    }
  }

  lemma NarrowKeepsRequestOrder(read: Result<Frame, Error>, essential: seq<string>)
    requires essential != []
    ensures var r := Narrow(read, false, essential);
      && (r.Err? ==> read == Err(r.error))
      && (r.Ok? ==> (SubsequenceOf(r.value.columns, essential)
                     && forall c :: c in r.value.columns ==> c in essential))
  {
  }

  /** On the disk path a request naming absent columns is never an error:
      the table keeps the requested columns that exist, in request order. */
  lemma DiskModeDropsMissingColumns(files: map<string, Bytes>, date: string, essential: seq<string>, saveDir: string,
                                    now: int, server: string -> Response,
                                    unzip: Bytes -> Option<seq<Entry>>, parse: Bytes -> Option<Frame>)
    requires essential != []
    ensures var e := ConfigSpec(files, date, true, false, essential, saveDir, now, server, unzip, parse);
      !e.result.Err? || !e.result.error.MissingColumns?
    ensures var e := ConfigSpec(files, date, true, false, essential, saveDir, now, server, unzip, parse);
      e.result.Ok? ==> (SubsequenceOf(e.result.value.columns, essential)
                        && forall c :: c in e.result.value.columns ==> c in essential)
  {
    DiskRunKeepsRequestOrder(PrepareSpec(files, GoldenCopyPublishes, saveDir, date, now, server), essential, unzip, parse);
  }

  /** In memory nothing is written to disk, and only the snapshot URL is fetched. */
  lemma MemoryModeWritesNothing(files: map<string, Bytes>, date: string, useFull: bool, essential: seq<string>,
                                saveDir: string, now: int, server: string -> Response,
                                unzip: Bytes -> Option<seq<Entry>>, parse: Bytes -> Option<Frame>)
    ensures var e := ConfigSpec(files, date, false, useFull, essential, saveDir, now, server, unzip, parse);
      e.files == files && |e.fetched| <= 1
  {
  }

  /** Reading the archive a second time, after a first read extracted its CSV
      member, changes nothing and reads the same table. */
  lemma DiskRunRepeats(d: Effect<Option<string>>, d2: Effect<Option<string>>, useFull: bool, essential: seq<string>,
                       unzip: Bytes -> Option<seq<Entry>>, parse: Bytes -> Option<Frame>)
    requires d.result.Some? && d.result.value in d.files && unzip(d.files[d.result.value]).Some?
    requires var entries := unzip(d.files[d.result.value]).value;
      && FirstCsv(Names(entries)).Some?
      && Paths.PlainMemberName(entries[FirstCsv(Names(entries)).value].name)
      && CsvPath(DefaultSaveDir, entries[FirstCsv(Names(entries)).value].name) != d.result.value
      && Paths.Join(DefaultSaveDir, entries[FirstCsv(Names(entries)).value].name) != d.result.value
    requires d2 == Effect(DiskRun(d, useFull, essential, unzip, parse).files, [], d.result)
    ensures var e1 := DiskRun(d, useFull, essential, unzip, parse);
      DiskRun(d2, useFull, essential, unzip, parse) == Effect(e1.files, [], e1.result)
  {
    UnzipAgain(d.files, d.result.value, DefaultSaveDir, unzip, parse);
  }

  /** Running the disk path twice for the same snapshot: the second run
      makes no request and returns the same table, provided the first run
      kept the URL's file name, the CSV member has an ordinary name, and
      neither the extracted nor the moved CSV lands on the archive itself. */
  lemma FetchAndReadTwice(files: map<string, Bytes>, pageUrl: string, saveDir: string, date: string, time: string,
                          filetype: string, variant: string, useFull: bool, essential: seq<string>,
                          now: int, now2: int, server: string -> Response, server2: string -> Response,
                          unzip: Bytes -> Option<seq<Entry>>, parse: Bytes -> Option<Frame>)
    requires FindDownloadUrl(pageUrl, date, time, filetype, variant).Ok?
    requires var url := FindDownloadUrl(pageUrl, date, time, filetype, variant).value;
             var d := FetchSnapshot(files, pageUrl, saveDir, date, time, filetype, variant, now, server);
      && d.result == Some(InitialPath(saveDir, url, now))
      && d.result.value in d.files
      && unzip(d.files[d.result.value]).Some?
      && var entries := unzip(d.files[d.result.value]).value;
         && FirstCsv(Names(entries)).Some?
         && Paths.PlainMemberName(entries[FirstCsv(Names(entries)).value].name)
         && CsvPath(DefaultSaveDir, entries[FirstCsv(Names(entries)).value].name) != d.result.value
         && Paths.Join(DefaultSaveDir, entries[FirstCsv(Names(entries)).value].name) != d.result.value
    ensures var e1 := DiskRun(FetchSnapshot(files, pageUrl, saveDir, date, time, filetype, variant, now, server),
                              useFull, essential, unzip, parse);
            var e2 := DiskRun(FetchSnapshot(e1.files, pageUrl, saveDir, date, time, filetype, variant, now2, server2),
                              useFull, essential, unzip, parse);
      e2.fetched == [] && e2.result == e1.result && e2.files == e1.files
  {
    var url := FindDownloadUrl(pageUrl, date, time, filetype, variant).value;
    var d := FetchSnapshot(files, pageUrl, saveDir, date, time, filetype, variant, now, server);
    var zipPath := d.result.value;
    UnzipAgain(d.files, zipPath, DefaultSaveDir, unzip, parse);
    var e1 := DiskRun(d, useFull, essential, unzip, parse);
    assert e1.files == UnzipSpec(d.files, zipPath, DefaultSaveDir, unzip, parse).files;
    UrlEndsWithName(pageUrl, date, time, filetype, variant);
    assert InitialPath(saveDir, url, now2) == zipPath;
    FetchHitsStoredFile(e1.files, pageUrl, saveDir, date, time, filetype, variant, now2, server2);
    DiskRunRepeats(d, Effect(e1.files, [], d.result), useFull, essential, unzip, parse);
  }

  /** `download_with_config` run twice on disk for the same day. */
  lemma DiskRunTwice(files: map<string, Bytes>, date: string, useFull: bool, essential: seq<string>, saveDir: string,
                     now: int, now2: int, server: string -> Response, server2: string -> Response,
                     unzip: Bytes -> Option<seq<Entry>>, parse: Bytes -> Option<Frame>)
    requires FindDownloadUrl(GoldenCopyPublishes, date, "00:00", "csv", "lei2").Ok?
    requires var url := FindDownloadUrl(GoldenCopyPublishes, date, "00:00", "csv", "lei2").value;
             var d := PrepareSpec(files, GoldenCopyPublishes, saveDir, date, now, server);
      && d.result == Some(InitialPath(saveDir, url, now))
      && d.result.value in d.files
      && unzip(d.files[d.result.value]).Some?
      && var entries := unzip(d.files[d.result.value]).value;
         && FirstCsv(Names(entries)).Some?
         && Paths.PlainMemberName(entries[FirstCsv(Names(entries)).value].name)
         && CsvPath(DefaultSaveDir, entries[FirstCsv(Names(entries)).value].name) != d.result.value
         && Paths.Join(DefaultSaveDir, entries[FirstCsv(Names(entries)).value].name) != d.result.value
    ensures var e1 := ConfigSpec(files, date, true, useFull, essential, saveDir, now, server, unzip, parse);
            var e2 := ConfigSpec(e1.files, date, true, useFull, essential, saveDir, now2, server2, unzip, parse);
      e2.fetched == [] && e2.result == e1.result && e2.files == e1.files
  {
    FetchAndReadTwice(files, GoldenCopyPublishes, saveDir, date, "00:00", "csv", "lei2", useFull, essential,
                      now, now2, server, server2, unzip, parse);
  }

  // ---------------------------------------------------------------------
  // The downloader object

  class GoldenCopyDownload {
    const pageUrl: string
    const saveDir: string

    constructor (pageUrl: string, saveDir: string)
      ensures this.pageUrl == pageUrl && this.saveDir == saveDir
    {
      this.pageUrl := pageUrl;
      this.saveDir := saveDir;
    }

    /** Downloads `url` into the save directory unless the URL's file is
        already there; returns the path written (or found). */
    method DownloadFile(host: Host, url: string, now: int, server: string -> Response)
      returns (r: Result<string, Error>)
      modifies host
      ensures var e := DownloadFileSpec(old(host.files), saveDir, url, now, server(url));
        host.files == e.files && host.requests == old(host.requests) + e.fetched && r == e.result
    {
      var resp := server(url);
      var initial := Paths.Join(saveDir, InitialFilename(url, now));
      var target := initial;
      var given := DispositionFilename(DispositionOf(resp));
      if given.Some? {
        target := Paths.Join(saveDir, given.value);
      }
      DownloadFileSpecAt(host.files, saveDir, url, now, resp, initial, target);
      r := Store(host, initial, target, url, resp);
    }

    /** The body of `download_file` once the URL's path `initial` and the
        header's path `target` are known: a file already at `initial` is
        kept; otherwise the URL is fetched and the reply streamed to `target`. */
    static method Store(host: Host, initial: string, target: string, url: string, resp: Response)
      returns (r: Result<string, Error>)
      modifies host
      ensures var e := DownloadTo(old(host.files), initial, target, url, resp);
        host.files == e.files && host.requests == old(host.requests) + e.fetched && r == e.result
    {
      if initial in host.files {
        return Ok(initial);
      }
      host.requests := host.requests + [url];
      if resp.ConnectionFailed? {
        return Err(TransferFailed(url));
      }
      if IsHttpError(resp.status) {
        return Err(HttpStatus(url, resp.status));
      }
      WriteChunks(host, target, resp.chunks);
      return Ok(target);
    }

    /** Streams `chunks` into the file at `path`, skipping empty chunks. */
    static method WriteChunks(host: Host, path: string, chunks: seq<Bytes>)
      modifies host
      ensures host.files == old(host.files)[path := WrittenBytes(chunks)]
      ensures host.requests == old(host.requests)
    {
      host.files := host.files[path := []];
      var i := 0;
      while i < |chunks|
        invariant 0 <= i <= |chunks|
        invariant host.files == old(host.files)[path := WrittenBytes(chunks[..i])]
        invariant host.requests == old(host.requests)
      {
        var chunk := chunks[i];
        ghost var written := WrittenBytes(chunks[..i]);
        assert chunks[..i + 1][..i] == chunks[..i];
        if chunk != [] {
          host.files := host.files[path := host.files[path] + chunk];
          assert WrittenBytes(chunks[..i + 1]) == written + chunk;
        } else {
          assert WrittenBytes(chunks[..i + 1]) == written + [];
          assert written + [] == written;
        }
        i := i + 1;
      }
      assert chunks[..i] == chunks;
    }

    /** Fetches the day's LEI-record CSV snapshot; `None` on any failure. */
    method PrepareDownload(host: Host, date: string, now: int, server: string -> Response)
      returns (r: Option<string>)
      modifies host
      ensures var e := PrepareSpec(old(host.files), pageUrl, saveDir, date, now, server);
        host.files == e.files && host.requests == old(host.requests) + e.fetched && r == e.result
    {
      var url := FindDownloadUrl(pageUrl, date, "00:00", "csv", "lei2");
      if url.Err? {
        return None;
      }
      var path := DownloadFile(host, url.value, now, server);
      if path.Err? {
        return None;
      }
      return Some(path.value);
    }

    /** Reads the archive at `url` straight from the response. */
    method DownloadZipAndReadCsvInMemory(host: Host, url: string, columns: seq<string>, server: string -> Response,
                                         unzip: Bytes -> Option<seq<Entry>>, parse: Bytes -> Option<Frame>)
      returns (r: Result<Frame, Error>)
      modifies host
      ensures host.files == old(host.files) && host.requests == old(host.requests) + [url]
      ensures r == ReadZipInMemory(server(url), url, columns, unzip, parse)
    {
      host.requests := host.requests + [url];
      r := ReadZipInMemory(server(url), url, columns, unzip, parse);
    }

    /** The day's snapshot read in memory; a failure is passed on. */
    method PrepareDownloadInMemory(host: Host, date: string, columns: seq<string>, server: string -> Response,
                                   unzip: Bytes -> Option<seq<Entry>>, parse: Bytes -> Option<Frame>)
      returns (r: Result<Frame, Error>)
      modifies host
      ensures var e := PrepareInMemorySpec(old(host.files), pageUrl, date, columns, server, unzip, parse);
        host.files == e.files && host.requests == old(host.requests) + e.fetched && r == e.result
    {
      var url := FindDownloadUrl(pageUrl, date, "00:00", "csv", "lei2");
      if url.Err? {
        return Err(BadRequest(url.error));
      }
      r := DownloadZipAndReadCsvInMemory(host, url.value, columns, server, unzip, parse);
    }

    /** Extracts the archive's first CSV member into `extractDir` (once) and
        reads it. */
    static method UnzipAndReadCsv(host: Host, zipPath: string, extractDir: string,
                                  unzip: Bytes -> Option<seq<Entry>>, parse: Bytes -> Option<Frame>)
      returns (r: Result<Frame, Error>)
      modifies host
      ensures var e := UnzipSpec(old(host.files), zipPath, extractDir, unzip, parse);
        host.files == e.files && host.requests == old(host.requests) && r == e.result
    {
      if zipPath !in host.files {
        return Err(FileNotFound(zipPath));
      }
      var entries := unzip(host.files[zipPath]);
      if entries.None? {
        return Err(BadZipFile(zipPath));
      }
      var first := FirstCsv(Names(entries.value));
      if first.None? {
        return Err(NoCsvInZip);
      }
      var name := entries.value[first.value].name;
      var csvPath := Paths.Join(extractDir, Paths.Basename(name));
      var target := Paths.ExtractTarget(extractDir, name);
      var extracted := Paths.Join(extractDir, name);
      var data := EntryData(entries.value, name);
      UnzipSpecAt(host.files, zipPath, extractDir, unzip, parse, entries.value, first.value, csvPath, target, extracted, data);
      ExtractMember(host, csvPath, target, extracted, data);
      r := ReadCsv(host.files, csvPath, parse);
    }

    /** Unless `csvPath` exists, writes the member at `target` and moves it
        from `extracted` up to `csvPath` when those differ. */
    static method ExtractMember(host: Host, csvPath: string, target: string, extracted: string, data: Bytes)
      modifies host
      ensures host.files == ExtractAt(old(host.files), csvPath, target, extracted, data)
      ensures host.requests == old(host.requests)
    {
      if csvPath !in host.files {
        host.files := host.files[target := data];
        ghost var written := host.files;
        if extracted != csvPath && extracted in host.files {
          host.files := (host.files - {extracted})[csvPath := host.files[extracted]];
          assert host.files == (written - {extracted})[csvPath := written[extracted]];
        }
      }
    }

    static method DownloadForDate(host: Host, date: string, saveDir: string, now: int, server: string -> Response)
      returns (r: Option<string>)
      modifies host
      ensures var e := PrepareSpec(old(host.files), GoldenCopyPublishes, saveDir, date, now, server);
        host.files == e.files && host.requests == old(host.requests) + e.fetched && r == e.result
    {
      var downloader := new GoldenCopyDownload(GoldenCopyPublishes, saveDir);
      r := downloader.PrepareDownload(host, date, now, server);
    }

    /** `download_for_date_in_memory(date, save_dir, columns, keep_in_memory)`: the day's
        snapshot read in memory, or saved on disk and its path returned. */
    static method DownloadForDateInMemory(host: Host, date: string, saveDir: string, columns: seq<string>,
                                          keepInMemory: bool, now: int, server: string -> Response,
                                          unzip: Bytes -> Option<seq<Entry>>, parse: Bytes -> Option<Frame>)
      returns (r: Prepared)
      modifies host
      ensures keepInMemory ==>
        var e := PrepareInMemorySpec(old(host.files), GoldenCopyPublishes, date, columns, server, unzip, parse);
        host.files == e.files && host.requests == old(host.requests) + e.fetched && r == Loaded(e.result)
      ensures !keepInMemory ==>
        var e := PrepareSpec(old(host.files), GoldenCopyPublishes, saveDir, date, now, server);
        host.files == e.files && host.requests == old(host.requests) + e.fetched && r == Saved(e.result)
    {
      var downloader := new GoldenCopyDownload(GoldenCopyPublishes, saveDir);
      if keepInMemory {
        var data := downloader.PrepareDownloadInMemory(host, date, columns, server, unzip, parse);
        r := Loaded(data);
      } else {
        var path := downloader.PrepareDownload(host, date, now, server);
        r := Saved(path);
      }
    }

    static method DownloadWithConfig(host: Host, date: string, saveToDisk: bool, useFull: bool,
                                     essential: seq<string>, saveDir: string, now: int,
                                     server: string -> Response,
                                     unzip: Bytes -> Option<seq<Entry>>, parse: Bytes -> Option<Frame>)
      returns (r: Result<Table, Error>)
      modifies host
      ensures var e := ConfigSpec(old(host.files), date, saveToDisk, useFull, essential, saveDir, now,
                                  server, unzip, parse);
        host.files == e.files && host.requests == old(host.requests) + e.fetched && r == e.result
    {
      if !saveToDisk {
        var prepared := DownloadForDateInMemory(host, date, DefaultSaveDir, Requested(useFull, essential),
                                                true, now, server, unzip, parse);
        var data := prepared.data;
        if data.Err? {
          return Err(data.error);
        }
        return Ok(data.value);
      }
      var filePath := DownloadForDate(host, date, saveDir, now, server);
      if filePath.None? {
        return Err(NoArchive);
      }
      var data := UnzipAndReadCsv(host, filePath.value, DefaultSaveDir, unzip, parse);
      if data.Err? {
        return Err(data.error);
      }
      if !useFull && essential != [] {
        var available := Available(essential, data.value.columns);
        return Ok(Select(data.value, available));
      }
      return Ok(data.value);
    }
  }
}
