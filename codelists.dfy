/** The registration-authority code list: downloading (or reusing) the GLEIF
    list, naming each authority from three optional fields, and mapping a
    column of authority codes to those names. */
module CodelistUtils {
  import opened Wrappers
  import opened Strings
  import opened Env
  import opened Tables
  import Paths
  import opened Seqs

  /** Where the 2024-11-20 edition (v1.8.1) of the list is published. */
  const RaListUrl := "https://www.gleif.org/lei-data/code-lists/gleif-registration-authorities-list/2024-11-20_ra-list-v1.8.1.csv"

  /** The cached copy's file name inside the cache directory. */
  const RaListFile := "ra-list-v1.8.1.csv"

  const DefaultCacheDir := "./cache"

  /** The three fields that make up an authority's name, in this order. */
  const RegisterName := "International name of Register"
  const OrganisationName := "International name of organisation responsible for the Register"
  const LocalOrganisationName := "Local name of organisation responsible for the Register"

  /** The header of the table `AddRegistrationAuthorityName` returns. */
  const CodeHeader := "registration_authority_code"
  const NameHeader := "registration_authority_name"

  datatype Error =
    | ListTransferFailed(url: string)
    | ListHttpStatus(url: string, status: int)
    | UnreadableList(path: string)
    | NoCodeColumn(columns: seq<string>)

  type RaMapping = map<string, Option<string>>

  // ---------------------------------------------------------------------
  // Reading the list, from the cache when it is there

  function CacheFile(cacheDir: string): string
  {
    Paths.Join(cacheDir, RaListFile)
  }

  function ReadList(files: map<string, Bytes>, path: string, parse: Bytes -> Option<Frame>): (r: Result<Frame, Error>)
    ensures r.Ok? ==> path in files && parse(files[path]) == Some(r.value)
    ensures path !in files ==> r == Err(UnreadableList(path))
  {
    if path !in files then Err(UnreadableList(path))
    else match parse(files[path])
      case None => Err(UnreadableList(path))
      case Some(t) => Ok(t)
  }

  /** `_download_ra_list` with the list's cache file at `cacheFile` and the
      server answering `resp`. */
  function ListFrom(files: map<string, Bytes>, cacheFile: string, resp: Response, parse: Bytes -> Option<Frame>)
    : (e: Effect<Result<Frame, Error>>)
    ensures cacheFile in files ==> e == Effect(files, [], ReadList(files, cacheFile, parse))
    ensures cacheFile !in files ==> e.fetched == [RaListUrl]
  {
    if cacheFile in files then Effect(files, [], ReadList(files, cacheFile, parse))
    else match resp
      case ConnectionFailed => Effect(files, [RaListUrl], Err(ListTransferFailed(RaListUrl)))
      case Reply(status, _, chunks) =>
        if IsHttpError(status) then Effect(files, [RaListUrl], Err(ListHttpStatus(RaListUrl, status)))
        else
          var written := files[cacheFile := Concat(chunks)];
          Effect(written, [RaListUrl], ReadList(written, cacheFile, parse))
  }

  function RaListSpec(files: map<string, Bytes>, cacheDir: string, resp: Response, parse: Bytes -> Option<Frame>)
    : Effect<Result<Frame, Error>>
  {
    ListFrom(files, CacheFile(cacheDir), resp, parse)
  }

  /** A cached list is read from disk: no request, no write. */
  lemma CachedListNeedsNoRequest(files: map<string, Bytes>, cacheDir: string, resp: Response,
                                 parse: Bytes -> Option<Frame>)
    requires CacheFile(cacheDir) in files
    ensures var e := RaListSpec(files, cacheDir, resp, parse);
      e.fetched == [] && e.files == files && e.result == ReadList(files, CacheFile(cacheDir), parse)
  {
  }

  /** A successful download stores the body at the cache file and reads the
      table from it; the next call reads that same table without a request. */
  lemma DownloadedListIsCached(files: map<string, Bytes>, cacheFile: string, status: int, cd: string,
                               chunks: seq<Bytes>, resp2: Response, parse: Bytes -> Option<Frame>)
    requires cacheFile !in files && !IsHttpError(status)
    ensures var e := ListFrom(files, cacheFile, Reply(status, cd, chunks), parse);
      && e.files == files[cacheFile := Concat(chunks)]
      && e.fetched == [RaListUrl]
      && e.result == (match parse(Concat(chunks)) case None => Err(UnreadableList(cacheFile)) case Some(t) => Ok(t))
      && ListFrom(e.files, cacheFile, resp2, parse) == Effect(e.files, [], e.result)
  {
    var written := files[cacheFile := Concat(chunks)];
    assert cacheFile in written && written[cacheFile] == Concat(chunks);
  }

  // ---------------------------------------------------------------------
  // Naming an authority

  /** `row.get(c)`: the cell under column `c`, `None` when the table has no
      such column. */
  function Field(t: Frame, row: seq<Cell>, c: string): Cell
    requires |row| == |t.columns|
  {
    if c in t.columns then row[IndexOf(t.columns, c)] else None
  }

  /** The three name fields of a row, in name order. */
  function NameFields(t: Frame, row: seq<Cell>): (fs: seq<Cell>)
    requires |row| == |t.columns|
    ensures |fs| == 3
  {
    [Field(t, row, RegisterName), Field(t, row, OrganisationName), Field(t, row, LocalOrganisationName)]
  }

  /** A field contributes to the name when it is present and not blank. */
  predicate Usable(c: Cell) { c.Some? && Strip(c.value) != "" }

  /** What one field contributes: its stripped value when it is usable. */
  function Part(c: Cell): (p: seq<string>)
    ensures |p| <= 1
  {
    if Usable(c) then [Strip(c.value)] else []
  }

  /** The stripped values of the usable fields, in field order. */
  function NameParts(fields: seq<Cell>): seq<string>
    decreases |fields|
  {
    if fields == [] then [] else Part(fields[0]) + NameParts(fields[1..])
  }

  /** What `create_concatenated_name` returns for a row with these fields. */
  function ConcatenatedName(fields: seq<Cell>): Option<string>
  {
    var parts := NameParts(fields);
    if parts == [] then None else Some(Join(" | ", parts))
  }

  /** A name segment: non-empty, with no white space at either end. */
  predicate Trimmed(p: string) { p != [] && !IsSpace(p[0]) && !IsSpace(p[|p| - 1]) }

  lemma {:induction false} NamePartsAreTrimmed(fields: seq<Cell>)
    ensures forall p <- NameParts(fields) :: Trimmed(p)
    decreases |fields|
  {
    if fields != [] {
      NamePartsAreTrimmed(fields[1..]);
      if Usable(fields[0]) {
        StripTrims(fields[0].value);
      }
    }
  }

  lemma NamePartsCons(f: Cell, rest: seq<Cell>)
    ensures NameParts([f] + rest) == Part(f) + NameParts(rest)
  {
    assert ([f] + rest)[1..] == rest;
  }

  lemma NamePartsOfThree(x: Cell, y: Cell, z: Cell)
    ensures NameParts([x, y, z]) == Part(x) + Part(y) + Part(z)
  {
    assert [x, y, z] == [x] + [y, z];
    assert [y, z] == [y] + [z];
    assert [z] == [z] + [];
    NamePartsCons(z, []);
    NamePartsCons(y, [z]);
    NamePartsCons(x, [y, z]);
    AppendAssoc(Part(x), Part(y), Part(z) + []);
    AppendEmpty(Part(z));
  }

  /** Every field's stripped text (`""` for a missing field). */
  function Stripped(fields: seq<Cell>): (s: seq<string>)
    ensures |s| == |fields|
    ensures forall k :: 0 <= k < |fields| ==> s[k] == (if fields[k].Some? then Strip(fields[k].value) else "")
    decreases |fields|
  {
    if fields == [] then [] else [if fields[0].Some? then Strip(fields[0].value) else ""] + Stripped(fields[1..])
  }

  /** The parts keep the fields' order. */
  lemma {:induction false} NamePartsInFieldOrder(fields: seq<Cell>)
    ensures SubsequenceOf(NameParts(fields), Stripped(fields))
    decreases |fields|
  {
    if fields != [] {
      NamePartsInFieldOrder(fields[1..]);
      var rest := NameParts(fields[1..]);
      assert Stripped(fields)[1..] == Stripped(fields[1..]);
      if Usable(fields[0]) {
        assert ([Strip(fields[0].value)] + rest)[1..] == rest;
      } else {
        assert Part(fields[0]) + rest == rest;
        SubsequenceDropHead(rest, Stripped(fields));
      }
    }
  }

  /** The name is missing exactly when every field is missing or blank. */
  lemma NoNameIffAllBlank(fields: seq<Cell>)
    ensures ConcatenatedName(fields) == None <==> forall k :: 0 <= k < |fields| ==> !Usable(fields[k])
  {
    NoPartsIffAllBlank(fields);
  }

  lemma {:induction false} NoPartsIffAllBlank(fields: seq<Cell>)
    ensures |NameParts(fields)| == 0 <==> forall k :: 0 <= k < |fields| ==> !Usable(fields[k])
    decreases |fields|
  {
    if fields != [] {
      NoPartsIffAllBlank(fields[1..]);
      assert |NameParts(fields)| == |Part(fields[0])| + |NameParts(fields[1..])|;
      assert forall k :: 1 <= k < |fields| ==> fields[k] == fields[1..][k - 1];
    }
  }

  /** With all three fields usable the name is the three stripped values
      joined by `" | "` in field order. */
  lemma NameOfThreeFields(a: string, b: string, c: string)
    requires Strip(a) != "" && Strip(b) != "" && Strip(c) != ""
    ensures ConcatenatedName([Some(a), Some(b), Some(c)]) == Some(Strip(a) + " | " + Strip(b) + " | " + Strip(c))
  {
    NamePartsOfThree(Some(a), Some(b), Some(c));
    var parts := [Strip(a), Strip(b), Strip(c)];
    assert NameParts([Some(a), Some(b), Some(c)]) == parts;
    assert parts[1..] == [Strip(b), Strip(c)];
    assert [Strip(b), Strip(c)][1..] == [Strip(c)];
    assert Join(" | ", [Strip(b), Strip(c)]) == Strip(b) + " | " + Strip(c);
    assert Join(" | ", parts) == Strip(a) + " | " + (Strip(b) + " | " + Strip(c));
    AppendAssoc(Strip(a) + " | ", Strip(b) + " | ", Strip(c));
    AppendAssoc(Strip(a) + " | ", Strip(b), " | ");
  }

  /** Blank or missing fields are skipped rather than leaving an empty segment. */
  lemma BlankFieldSkipped(a: string, blank: Cell, c: string)
    requires Strip(a) != "" && Strip(c) != ""
    requires blank == None || (blank.Some? && Strip(blank.value) == "")
    ensures ConcatenatedName([Some(a), blank, Some(c)]) == Some(Strip(a) + " | " + Strip(c))
  {
    NamePartsOfThree(Some(a), blank, Some(c));
    var parts := [Strip(a), Strip(c)];
    assert Part(blank) == [];
    assert NameParts([Some(a), blank, Some(c)]) == parts;
    assert parts[1..] == [Strip(c)];
    assert Join(" | ", parts) == Strip(a) + " | " + Strip(c);
  }

  // ---------------------------------------------------------------------
  // Finding the code column

  /** A column name that mentions registration, authority and code, in any
      letter case. */
  predicate IsCodeColumn(c: string)
  {
    var l := Lower(c);
    Contains(l, "registration") && Contains(l, "authority") && Contains(l, "code")
  }

  /** Index of the first code column. */
  function FirstCodeColumn(columns: seq<string>, from: nat): (r: Option<nat>)
    ensures r.Some? ==> from <= r.value < |columns| && IsCodeColumn(columns[r.value])
    ensures r.Some? ==> forall k :: from <= k < r.value ==> !IsCodeColumn(columns[k])
    ensures r.None? ==> forall k :: from <= k < |columns| ==> !IsCodeColumn(columns[k])
    decreases |columns| - from
  {
    if from >= |columns| then None
    else if IsCodeColumn(columns[from]) then Some(from)
    else FirstCodeColumn(columns, from + 1)
  }

  /** The column the mapping is keyed on. */
  function CodeColumn(columns: seq<string>): Option<string>
  {
    match FirstCodeColumn(columns, 0)
    case None => None
    case Some(i) => Some(columns[i])
  }

  // ---------------------------------------------------------------------
  // The code-to-name mapping

  /** The mapping the row loop builds over `rows`: each row with a code
      stores that row's name under the code, later rows overwriting earlier
      ones. */
  function MappingOf(t: Frame, codeCol: string, rows: seq<seq<Cell>>): RaMapping
    requires forall i :: 0 <= i < |rows| ==> |rows[i]| == |t.columns|
    decreases |rows|
  {
    if rows == [] then map[]
    else
      var n := |rows| - 1;
      var m := MappingOf(t, codeCol, rows[..n]);
      var code := Field(t, rows[n], codeCol);
      if code.Some? then m[code.value := ConcatenatedName(NameFields(t, rows[n]))] else m
  }

  /** The keys are exactly the codes of the rows that have one. */
  lemma MappingKeys(t: Frame, codeCol: string, rows: seq<seq<Cell>>, k: string)
    requires forall i :: 0 <= i < |rows| ==> |rows[i]| == |t.columns|
    ensures k in MappingOf(t, codeCol, rows) <==>
      exists i :: 0 <= i < |rows| && Field(t, rows[i], codeCol) == Some(k)
  {
    if k in MappingOf(t, codeCol, rows) {
      var i := KeyHasRow(t, codeCol, rows, k);
    }
    if exists i :: 0 <= i < |rows| && Field(t, rows[i], codeCol) == Some(k) {
      var i :| 0 <= i < |rows| && Field(t, rows[i], codeCol) == Some(k);
      RowCodeIsKey(t, codeCol, rows, i);
    }
  }

  lemma {:induction false} KeyHasRow(t: Frame, codeCol: string, rows: seq<seq<Cell>>, k: string) returns (i: nat)
    requires forall i :: 0 <= i < |rows| ==> |rows[i]| == |t.columns|
    requires k in MappingOf(t, codeCol, rows)
    ensures i < |rows| && Field(t, rows[i], codeCol) == Some(k)
    decreases |rows|
  {
    var n := |rows| - 1;
    if Field(t, rows[n], codeCol) == Some(k) {
      i := n;
    } else {
      i := KeyHasRow(t, codeCol, rows[..n], k);
      assert rows[..n][i] == rows[i];
    }
  }

  lemma {:induction false} RowCodeIsKey(t: Frame, codeCol: string, rows: seq<seq<Cell>>, i: nat)
    requires forall i :: 0 <= i < |rows| ==> |rows[i]| == |t.columns|
    requires i < |rows| && Field(t, rows[i], codeCol).Some?
    ensures Field(t, rows[i], codeCol).value in MappingOf(t, codeCol, rows)
    decreases |rows|
  {
    var n := |rows| - 1;
    if i < n {
      assert rows[..n][i] == rows[i];
      RowCodeIsKey(t, codeCol, rows[..n], i);
    }
  }

  /** A code's name is the name of the last row carrying that code. */
  lemma {:induction false} LastRowWins(t: Frame, codeCol: string, rows: seq<seq<Cell>>, j: nat)
    requires forall i :: 0 <= i < |rows| ==> |rows[i]| == |t.columns|
    requires j < |rows| && Field(t, rows[j], codeCol).Some?
    requires forall i :: j < i < |rows| ==> Field(t, rows[i], codeCol) != Field(t, rows[j], codeCol)
    ensures var k := Field(t, rows[j], codeCol).value;
      k in MappingOf(t, codeCol, rows) && MappingOf(t, codeCol, rows)[k] == ConcatenatedName(NameFields(t, rows[j]))
    decreases |rows|
  {
    var n := |rows| - 1;
    if j < n {
      assert forall i :: j < i < n ==> rows[..n][i] == rows[i];
      assert rows[..n][j] == rows[j];
      LastRowWins(t, codeCol, rows[..n], j);
    }
  }

  /** `_create_ra_mapping` from a freshly read list (no memo yet). */
  function RaMappingSpec(files: map<string, Bytes>, cacheDir: string, resp: Response, parse: Bytes -> Option<Frame>)
    : Effect<Result<RaMapping, Error>>
  {
    var e := RaListSpec(files, cacheDir, resp, parse);
    match e.result
    case Err(err) => Effect(e.files, e.fetched, Err(err))
    case Ok(t) =>
      match CodeColumn(t.columns)
      case None => Effect(e.files, e.fetched, Err(NoCodeColumn(t.columns)))
      case Some(c) => Effect(e.files, e.fetched, Ok(MappingOf(t, c, t.rows)))
  }

  // ---------------------------------------------------------------------
  // Naming a column of codes

  /** The name shown for a code: its mapped name, or `""` when the code is
      missing, unknown, or maps to no name. */
  function NameFor(m: RaMapping, code: Cell): string
  {
    if code.Some? && code.value in m && m[code.value].Some? then m[code.value].value else ""
  }

  /** The two-column table `addRegistrationauthorityName` returns. */
  function NamesTable(codes: seq<Cell>, m: RaMapping): (r: Table)
    ensures r.columns == [CodeHeader, NameHeader] && |r.rows| == |codes|
    ensures forall i :: 0 <= i < |codes| ==> r.rows[i] == [codes[i], Some(NameFor(m, codes[i]))]
  {
    Table([CodeHeader, NameHeader], seq(|codes|, i requires 0 <= i < |codes| => [codes[i], Some(NameFor(m, codes[i]))]))
  }

  /** The table keeps the input codes in order and names every one. */
  lemma NamesTableShape(codes: seq<Cell>, m: RaMapping)
    ensures var r := NamesTable(codes, m);
      && WellFormed(r)
      && Column(r, CodeHeader) == codes
      && forall i :: 0 <= i < |codes| ==> Column(r, NameHeader)[i].Some?
  {
    var r := NamesTable(codes, m);
    assert IndexOf(r.columns, CodeHeader) == 0;
    assert IndexOf(r.columns, NameHeader) == 1;
  }

  /** End to end: the name shown for a code is the concatenated name of the
      last list row with that code, `""` when that row has no usable name
      field, and `""` for a code no row has. */
  lemma NameResolvesToLastRow(t: Frame, codeCol: string, codes: seq<Cell>, i: nat, j: nat)
    requires i < |codes| && codes[i].Some?
    requires j < |t.rows| && Field(t, t.rows[j], codeCol) == codes[i]
    requires forall l :: j < l < |t.rows| ==> Field(t, t.rows[l], codeCol) != codes[i]
    ensures var name := ConcatenatedName(NameFields(t, t.rows[j]));
      NamesTable(codes, MappingOf(t, codeCol, t.rows)).rows[i][1] == Some(if name.Some? then name.value else "")
  {
    LastRowWins(t, codeCol, t.rows, j);
  }

  lemma UnknownCodeHasNoName(t: Frame, codeCol: string, codes: seq<Cell>, i: nat)
    requires i < |codes| && codes[i].Some?
    requires forall l :: 0 <= l < |t.rows| ==> Field(t, t.rows[l], codeCol) != codes[i]
    ensures NamesTable(codes, MappingOf(t, codeCol, t.rows)).rows[i][1] == Some("")
  {
    MappingKeys(t, codeCol, t.rows, codes[i].value);
  }

  // ---------------------------------------------------------------------
  // The code-list object

  class Codelists {
    const cacheDir: string
    /** `_ra_mapping`: `None` until the mapping has been built once. */
    var raMapping: Option<RaMapping>

    constructor (cacheDir: string)
      ensures this.cacheDir == cacheDir && raMapping == None
    {
      this.cacheDir := cacheDir;
      raMapping := None;
    }

    /** `_download_ra_list`: the cached list if present, else the downloaded one. */
    method DownloadRaList(host: Host, server: string -> Response, parse: Bytes -> Option<Frame>)
      returns (r: Result<Frame, Error>)
      modifies host
      ensures var e := RaListSpec(old(host.files), cacheDir, server(RaListUrl), parse);
        host.files == e.files && host.requests == old(host.requests) + e.fetched && r == e.result
    {
      var cacheFile := Paths.Join(cacheDir, RaListFile);
      r := FetchList(host, cacheFile, server(RaListUrl), parse);
    }

    static method FetchList(host: Host, cacheFile: string, resp: Response, parse: Bytes -> Option<Frame>)
      returns (r: Result<Frame, Error>)
      modifies host
      ensures var e := ListFrom(old(host.files), cacheFile, resp, parse);
        host.files == e.files && host.requests == old(host.requests) + e.fetched && r == e.result
    {
      if cacheFile in host.files {
        return ReadList(host.files, cacheFile, parse);
      }
      host.requests := host.requests + [RaListUrl];
      if resp.ConnectionFailed? {
        return Err(ListTransferFailed(RaListUrl));
      }
      if IsHttpError(resp.status) {
        return Err(ListHttpStatus(RaListUrl, resp.status));
      }
      host.files := host.files[cacheFile := Concat(resp.chunks)];
      return ReadList(host.files, cacheFile, parse);
    }

    /** `create_concatenated_name(row)`: the usable name fields, checked one
        after the other, joined by `" | "`. */
    static method CreateConcatenatedName(t: Frame, row: seq<Cell>) returns (name: Option<string>)
      requires |row| == |t.columns|
      ensures name == ConcatenatedName(NameFields(t, row))
    {
      var register := Field(t, row, RegisterName);
      var organisation := Field(t, row, OrganisationName);
      var local := Field(t, row, LocalOrganisationName);
      name := ConcatenateFields(register, organisation, local);
    }

    static method ConcatenateFields(register: Cell, organisation: Cell, local: Cell) returns (name: Option<string>)
      ensures name == ConcatenatedName([register, organisation, local])
    {
      var parts: seq<string> := [];
      if register.Some? && Strip(register.value) != "" {
        parts := parts + [Strip(register.value)];
      }
      assert parts == Part(register);
      if organisation.Some? && Strip(organisation.value) != "" {
        parts := parts + [Strip(organisation.value)];
      }
      assert parts == Part(register) + Part(organisation);
      if local.Some? && Strip(local.value) != "" {
        parts := parts + [Strip(local.value)];
      }
      NamePartsOfThree(register, organisation, local);
      assert parts == Part(register) + Part(organisation) + Part(local);
      if parts == [] {
        return None;
      }
      return Some(Join(" | ", parts));
    }

    /** The column search: the first column naming the authority code. */
    static method FindCodeColumn(columns: seq<string>) returns (r: Option<string>)
      ensures r == CodeColumn(columns)
    {
      r := None;
      var i := 0;
      while i < |columns|
        invariant 0 <= i <= |columns|
        invariant FirstCodeColumn(columns, 0) == FirstCodeColumn(columns, i)
      {
        var l := Lower(columns[i]);
        if Contains(l, "registration") && Contains(l, "authority") && Contains(l, "code") {
          r := Some(columns[i]);
          break;
        }
        i := i + 1;
      }
    }

    /** The row loop filling the mapping. */
    static method BuildMapping(t: Frame, codeCol: string) returns (m: RaMapping)
      ensures m == MappingOf(t, codeCol, t.rows)
    {
      m := map[];
      var i := 0;
      while i < |t.rows|
        invariant 0 <= i <= |t.rows|
        invariant m == MappingOf(t, codeCol, t.rows[..i])
      {
        var row := t.rows[i];
        assert t.rows[..i + 1][..i] == t.rows[..i];
        var code := Field(t, row, codeCol);
        if code.Some? {
          var name := CreateConcatenatedName(t, row);
          m := m[code.value := name];
        }
        i := i + 1;
      }
      assert t.rows[..i] == t.rows;
    }

    /** `_create_ra_mapping`: the memoised mapping, built on first use. */
    method CreateRaMapping(host: Host, server: string -> Response, parse: Bytes -> Option<Frame>)
      returns (r: Result<RaMapping, Error>)
      modifies this, host
      ensures old(raMapping).Some? ==>
        r == Ok(old(raMapping).value) && raMapping == old(raMapping)
        && host.files == old(host.files) && host.requests == old(host.requests)
      ensures old(raMapping).None? ==>
        var e := RaMappingSpec(old(host.files), cacheDir, server(RaListUrl), parse);
        && host.files == e.files && host.requests == old(host.requests) + e.fetched && r == e.result
        && raMapping == (if r.Ok? then Some(r.value) else None)
    {
      if raMapping.Some? {
        return Ok(raMapping.value);
      }
      var df := DownloadRaList(host, server, parse);
      if df.Err? {
        return Err(df.error);
      }
      var codeCol := FindCodeColumn(df.value.columns);
      if codeCol.None? {
        return Err(NoCodeColumn(df.value.columns));
      }
      var m := BuildMapping(df.value, codeCol.value);
      raMapping := Some(m);
      return Ok(m);
    }

    /** `addRegistrationauthorityName(codes)`. */
    method AddRegistrationAuthorityName(host: Host, codes: seq<Cell>, server: string -> Response,
                                        parse: Bytes -> Option<Frame>)
      returns (r: Result<Table, Error>)
      modifies this, host
      ensures old(raMapping).Some? ==>
        r == Ok(NamesTable(codes, old(raMapping).value)) && raMapping == old(raMapping)
        && host.files == old(host.files) && host.requests == old(host.requests)
      ensures old(raMapping).None? ==>
        var e := RaMappingSpec(old(host.files), cacheDir, server(RaListUrl), parse);
        && host.files == e.files && host.requests == old(host.requests) + e.fetched
        && r == (if e.result.Ok? then Ok(NamesTable(codes, e.result.value)) else Err(e.result.error))
        && raMapping == (if e.result.Ok? then Some(e.result.value) else None)
    {
      var m := CreateRaMapping(host, server, parse);
      if m.Err? {
        return Err(m.error);
      }
      return Ok(NamesTable(codes, m.value));
    }
  }
}
