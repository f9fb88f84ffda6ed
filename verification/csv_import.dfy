/** The CSV import of household records (`import_csv` in app.py): upload
    checks, header normalisation, the header-to-field table, the row-length
    filter, and the records the import produces. The uploaded text is taken
    as already split into rows of cells. */
module CsvImport {
  import opened Results

  /** The fields of a `tb_dataset` row (its primary key aside). */
  datatype Column =
    | JenisBencana | Kecamatan | Desa | NamaKk | JumlahAnggotaKeluarga
    | StatusKepemilikanRumah | KondisiAtap | KondisiKolomBalok | KondisiPlesteran
    | KondisiLantai | KondisiPintuJendela | KondisiInstalasiListrik
    | KondisiStrukturBangunan | Relokasi

  /** The keyword arguments an imported row passes to `Dataset(...)`. */
  type Record = map<Column, string>

  const AllColumns: set<Column> :=
    {JenisBencana, Kecamatan, Desa, NamaKk, JumlahAnggotaKeluarga,
     StatusKepemilikanRumah, KondisiAtap, KondisiKolomBalok, KondisiPlesteran,
     KondisiLantai, KondisiPintuJendela, KondisiInstalasiListrik,
     KondisiStrukturBangunan, Relokasi}

  /** The normalised CSV header each field is read from. */
  function HeaderOf(c: Column): string {
    match c
    case JenisBencana => "jenis bencana"
    case Kecamatan => "kecamatan"
    case Desa => "desa"
    case NamaKk => "nama kk"
    case JumlahAnggotaKeluarga => "jumlah anggota keluarga"
    case StatusKepemilikanRumah => "status kepemilikan rumah"
    case KondisiAtap => "kondisi atap"
    case KondisiKolomBalok => "kondisi kolom/balok"
    case KondisiPlesteran => "kondisi plesteran"
    case KondisiLantai => "kondisi lantai"
    case KondisiPintuJendela => "kondisi pintu/jendela"
    case KondisiInstalasiListrik => "kondisi instalasi listrik"
    case KondisiStrukturBangunan => "kondisi struktur bangunan"
    case Relokasi => "relokasi"
  }

  /** The headers an upload must carry, in the order the error message
      lists them. */
  const ExpectedHeaders: seq<string> :=
    ["jenis bencana", "kecamatan", "desa", "nama kk",
     "jumlah anggota keluarga", "status kepemilikan rumah",
     "kondisi atap", "kondisi kolom/balok", "kondisi plesteran",
     "kondisi lantai", "kondisi pintu/jendela",
     "kondisi instalasi listrik", "kondisi struktur bangunan",
     "relokasi"]

  /** `header_mapping`: the field a normalised header fills, if any. Its
      keys are exactly the expected headers, and it inverts HeaderOf. */
  function ColumnOf(h: string): (r: Option<Column>)
    ensures r.Some? <==> h in ExpectedHeaders
    ensures r.Some? ==> HeaderOf(r.value) == h
  {
    if h == "jenis bencana" then Some(JenisBencana)
    else if h == "kecamatan" then Some(Kecamatan)
    else if h == "desa" then Some(Desa)
    else if h == "nama kk" then Some(NamaKk)
    else if h == "jumlah anggota keluarga" then Some(JumlahAnggotaKeluarga)
    else if h == "status kepemilikan rumah" then Some(StatusKepemilikanRumah)
    else if h == "kondisi atap" then Some(KondisiAtap)
    else if h == "kondisi kolom/balok" then Some(KondisiKolomBalok)
    else if h == "kondisi plesteran" then Some(KondisiPlesteran)
    else if h == "kondisi lantai" then Some(KondisiLantai)
    else if h == "kondisi pintu/jendela" then Some(KondisiPintuJendela)
    else if h == "kondisi instalasi listrik" then Some(KondisiInstalasiListrik)
    else if h == "kondisi struktur bangunan" then Some(KondisiStrukturBangunan)
    else if h == "relokasi" then Some(Relokasi)
    else None
  }

  /** Every field has an expected header, and the mapping sends it back to
      that field: the mapping and the expected list name the same 14 fields. */
  lemma HeaderMappingRoundTrip()
    ensures forall c: Column :: c in AllColumns
    ensures forall c: Column :: HeaderOf(c) in ExpectedHeaders && ColumnOf(HeaderOf(c)) == Some(c)
  {
    forall c: Column ensures c in AllColumns && ColumnOf(HeaderOf(c)) == Some(c) {
      match c
      case JenisBencana =>
      case Kecamatan =>
      case Desa =>
      case NamaKk =>
      case JumlahAnggotaKeluarga =>
      case StatusKepemilikanRumah =>
      case KondisiAtap =>
      case KondisiKolomBalok =>
      case KondisiPlesteran =>
      case KondisiLantai =>
      case KondisiPintuJendela =>
      case KondisiInstalasiListrik =>
      case KondisiStrukturBangunan =>
      case Relokasi =>
    }
  }

  // ---------------------------------------------------------------- normalisation

  /** The characters Python's `str.isspace` accepts, which `str.strip()`
      removes from both ends. */
  predicate IsSpace(ch: char) {
    || ch == '\t' || ch == '\n' || ch == '\U{000B}' || ch == '\U{000C}' || ch == '\r'
    || '\U{001C}' <= ch <= '\U{001F}'
    || ch == ' ' || ch == '\U{0085}' || ch == '\U{00A0}' || ch == '\U{1680}'
    || '\U{2000}' <= ch <= '\U{200A}'
    || ch == '\U{2028}' || ch == '\U{2029}' || ch == '\U{202F}' || ch == '\U{205F}'
    || ch == '\U{3000}'
  }

  /** `s` without its leading whitespace. */
  function TrimStart(s: string): (r: string)
    ensures |r| <= |s| && r == s[|s| - |r|..]
    ensures forall i | 0 <= i < |s| - |r| :: IsSpace(s[i])
    ensures r == [] || !IsSpace(r[0])
    decreases |s|
  {
    if s != [] && IsSpace(s[0]) then TrimStart(s[1..]) else s
  }

  /** `s` without its trailing whitespace. */
  function TrimEnd(s: string): (r: string)
    ensures |r| <= |s| && r == s[..|r|]
    ensures forall i | |r| <= i < |s| :: IsSpace(s[i])
    ensures r == [] || !IsSpace(r[|r| - 1])
    decreases |s|
  {
    if s != [] && IsSpace(s[|s| - 1]) then TrimEnd(s[..|s| - 1]) else s
  }

  /** `str.strip()`. */
  function Strip(s: string): string {
    TrimEnd(TrimStart(s))
  }

  /** `str.lower()` on one character: ASCII capitals and KELVIN SIGN, the
      only characters whose lower case is an ASCII letter; every other
      character is kept as it is. */
  function LowerChar(ch: char): char {
    if 'A' <= ch <= 'Z' then (ch as int - 'A' as int + 'a' as int) as char
    else if ch == '\U{212A}' then 'k'
    else ch
  }

  function Lower(s: string): string {
    seq(|s|, i requires 0 <= i < |s| => LowerChar(s[i]))
  }

  /** One header cell as the import compares it: `h.strip().lower()`. */
  function Normalize(h: string): string {
    Lower(Strip(h))
  }

  function NormalizeHeader(cells: seq<string>): (header: seq<string>)
    ensures |header| == |cells|
    ensures forall i | 0 <= i < |cells| :: header[i] == Normalize(cells[i])
  {
    seq(|cells|, i requires 0 <= i < |cells| => Normalize(cells[i]))
  }

  lemma LowerCharKeepsSpace(ch: char)
    ensures IsSpace(LowerChar(ch)) <==> IsSpace(ch)
  {
  }

  /** Lower-casing is idempotent and never moves whitespace. */
  lemma {:induction false} LowerLaws(s: string)
    ensures Lower(Lower(s)) == Lower(s)
    ensures |Lower(s)| == |s|
    ensures forall i | 0 <= i < |s| :: IsSpace(Lower(s)[i]) <==> IsSpace(s[i])
  {
    forall i | 0 <= i < |s| ensures IsSpace(Lower(s)[i]) <==> IsSpace(s[i]) {
      LowerCharKeepsSpace(s[i]);
    }
  }

  /** Stripping a string with no whitespace at either end changes nothing. */
  lemma StripTrimmed(s: string)
    requires s == [] || (!IsSpace(s[0]) && !IsSpace(s[|s| - 1]))
    ensures Strip(s) == s
  {
  }

  /** Normalising a header cell twice is the same as normalising it once. */
  lemma {:induction false} NormalizeIdempotent(h: string)
    ensures Normalize(Normalize(h)) == Normalize(h)
  {
    var t := Strip(h);
    var u := TrimStart(h);
    assert t == [] || (!IsSpace(t[0]) && !IsSpace(t[|t| - 1])) by {
      if t != [] {
        assert t == u[..|t|];
        assert u != [] && !IsSpace(u[0]);
      }
    }
    LowerLaws(t);
    StripTrimmed(Lower(t));
  }

  /** Leading whitespace before a non-space character is trimmed away. */
  lemma {:induction false} TrimStartSkipsSpaces(pre: string, rest: string)
    requires forall i | 0 <= i < |pre| :: IsSpace(pre[i])
    requires rest == [] || !IsSpace(rest[0])
    ensures TrimStart(pre + rest) == rest
    decreases |pre|
  {
    if pre != [] {
      assert (pre + rest)[1..] == pre[1..] + rest;
      TrimStartSkipsSpaces(pre[1..], rest);
    }
  }

  /** Trailing whitespace after a non-space character is trimmed away. */
  lemma {:induction false} TrimEndSkipsSpaces(rest: string, post: string)
    requires forall i | 0 <= i < |post| :: IsSpace(post[i])
    requires rest == [] || !IsSpace(rest[|rest| - 1])
    ensures TrimEnd(rest + post) == rest
    decreases |post|
  {
    if post != [] {
      var n := |post| - 1;
      assert (rest + post)[..|rest + post| - 1] == rest + post[..n];
      TrimEndSkipsSpaces(rest, post[..n]);
    }
  }

  /** No expected header begins or ends with whitespace. */
  lemma HeaderHasNoPadding(c: Column)
    ensures |HeaderOf(c)| > 0
    ensures !IsSpace(HeaderOf(c)[0]) && !IsSpace(HeaderOf(c)[|HeaderOf(c)| - 1])
  {
  }

  /** A header cell is accepted as the header of `c` when it spells that
      header in any mix of upper and lower case, padded on either side with
      whitespace. */
  lemma PaddedHeaderAccepted(c: Column, pre: string, cell: string, post: string)
    requires Lower(cell) == HeaderOf(c)
    requires forall i | 0 <= i < |pre| :: IsSpace(pre[i])
    requires forall i | 0 <= i < |post| :: IsSpace(post[i])
    ensures Normalize(pre + cell + post) == HeaderOf(c)
  {
    LowerLaws(cell);
    HeaderHasNoPadding(c);
    assert Lower(cell)[0] == HeaderOf(c)[0];
    assert Lower(cell)[|cell| - 1] == HeaderOf(c)[|cell| - 1];
    assert pre + cell + post == pre + (cell + post);
    assert (cell + post)[0] == cell[0];
    TrimStartSkipsSpaces(pre, cell + post);
    TrimEndSkipsSpaces(cell, post);
  }

  /** The text is decoded as plain UTF-8, so a byte-order mark survives
      decoding; it is not whitespace, and a first header cell that starts
      with one does not normalise to its header. */
  lemma ByteOrderMarkKeptInHeader(cell: string)
    ensures Normalize(['\U{FEFF}'] + cell) != HeaderOf(JenisBencana)
  {
    var h := ['\U{FEFF}'] + cell;
    assert !IsSpace(h[0]);
    assert TrimStart(h) == h;
    if TrimEnd(h) != [] {
      assert Lower(Strip(h))[0] == '\U{FEFF}';
    }
  }

  // ---------------------------------------------------------------- header check

  /** `all(h in header for h in expected_headers)`. */
  predicate HeaderComplete(header: seq<string>) {
    forall h | h in ExpectedHeaders :: h in header
  }

  /** The header is complete exactly when every field's header occurs in it. */
  lemma HeaderCompleteIffAllFields(header: seq<string>)
    ensures HeaderComplete(header) <==> forall c: Column :: HeaderOf(c) in header
  {
    HeaderMappingRoundTrip();
    if forall c: Column :: HeaderOf(c) in header {
      forall h | h in ExpectedHeaders ensures h in header {
        assert HeaderOf(ColumnOf(h).value) == h;
      }
    }
  }

  // ---------------------------------------------------------------- one row

  /** Position of the last occurrence of `x` in `xs`, or -1. */
  function LastIndex(xs: seq<string>, x: string): (r: int)
    ensures -1 <= r < |xs|
    ensures r == -1 <==> x !in xs
    ensures r >= 0 ==> xs[r] == x && forall j | r < j < |xs| :: xs[j] != x
    decreases |xs|
  {
    if |xs| == 0 then -1
    else if xs[|xs| - 1] == x then |xs| - 1
    else LastIndex(xs[..|xs| - 1], x)
  }

  /** The cell of `row` under the last column of `header` named `h`, or ""
      when no column is. */
  function CellUnder(header: seq<string>, row: seq<string>, h: string): string {
    var j := LastIndex(header, h);
    if 0 <= j < |row| then row[j] else ""
  }

  /** `dict(zip(header, row))` for a row as long as the header: each header
      name maps to the cell under its LAST occurrence, since a later pair
      overwrites an earlier one. */
  function Zip(header: seq<string>, row: seq<string>): (d: map<string, string>)
    requires |header| == |row|
    ensures forall k :: k in d <==> k in header
    ensures forall k | k in d :: d[k] == row[LastIndex(header, k)]
    decreases |header|
  {
    if |header| == 0 then map[]
    else
      var n := |header| - 1;
      Zip(header[..n], row[..n])[header[n] := row[n]]
  }

  /** `mapped_data`: the row's cells under mapped headers, keyed by field;
      cells under any other header are dropped. Since the mapping pairs each
      field with exactly one header (HeaderMappingRoundTrip), ranging over
      the fields whose header is a key gives the same dictionary as ranging
      over the keys that have a field. */
  function MapRow(header: seq<string>, row: seq<string>): (rec: Record)
    requires |header| == |row|
    ensures forall c :: c in rec <==> HeaderOf(c) in header
    ensures forall c | c in rec :: rec[c] == CellUnder(header, row, HeaderOf(c))
  {
    HeaderMappingRoundTrip();
    var d := Zip(header, row);
    map c | c in AllColumns && HeaderOf(c) in d :: d[HeaderOf(c)]
  }

  /** Under a complete header a row yields all 14 fields, each holding the
      cell of the (last) column carrying that field's header. */
  lemma MapRowFields(header: seq<string>, row: seq<string>)
    requires |header| == |row|
    requires HeaderComplete(header)
    ensures forall c: Column :: c in MapRow(header, row)
    ensures forall c: Column :: exists j | 0 <= j < |header| ::
              header[j] == HeaderOf(c) && MapRow(header, row)[c] == row[j]
  {
    HeaderCompleteIffAllFields(header);
    HeaderMappingRoundTrip();
    var rec := MapRow(header, row);
    forall c: Column ensures exists j | 0 <= j < |header| :: header[j] == HeaderOf(c) && rec[c] == row[j] {
      var j := LastIndex(header, HeaderOf(c));
      assert header[j] == HeaderOf(c) && rec[c] == row[j];
    }
  }

  // ---------------------------------------------------------------- all rows

  /** Positions of the data rows whose cell count equals the header's. */
  function MatchingRows(header: seq<string>, rows: seq<seq<string>>): set<nat> {
    set i: nat | i < |rows| && |rows[i]| == |header|
  }

  /** Appending a data row adds its position to the matching ones exactly
      when it is as long as the header. */
  lemma MatchingRowsSnoc(header: seq<string>, rows: seq<seq<string>>)
    requires rows != []
    ensures var n := |rows| - 1;
            |MatchingRows(header, rows)| == |MatchingRows(header, rows[..n])| + (if |rows[n]| == |header| then 1 else 0)
  {
    var n := |rows| - 1;
    if |rows[n]| == |header| {
      assert MatchingRows(header, rows) == MatchingRows(header, rows[..n]) + {n};
    } else {
      assert MatchingRows(header, rows) == MatchingRows(header, rows[..n]);
    }
  }

  /** The data rows the import keeps, in file order: those as long as the
      header, each as often as it occurs. */
  function Kept(header: seq<string>, rows: seq<seq<string>>): (kept: seq<seq<string>>)
    ensures forall row :: row in kept <==> row in rows && |row| == |header|
    ensures forall i | 0 <= i < |kept| :: |kept[i]| == |header|
    ensures |kept| == |MatchingRows(header, rows)|
    decreases |rows|
  {
    if rows == [] then []
    else
      var n := |rows| - 1;
      var prefix := Kept(header, rows[..n]);
      assert rows == rows[..n] + [rows[n]];
      MatchingRowsSnoc(header, rows);
      if |rows[n]| == |header| then
        prefix + [rows[n]]
      else
        prefix
  }

  /** Every data row as long as the header is kept exactly as often as it
      occurs in the file, and no other row is kept. */
  lemma {:induction false} KeptOccurrences(header: seq<string>, rows: seq<seq<string>>)
    ensures forall row :: multiset(Kept(header, rows))[row] == if |row| == |header| then multiset(rows)[row] else 0
    decreases |rows|
  {
    if rows != [] {
      var n := |rows| - 1;
      var prefix := Kept(header, rows[..n]);
      KeptOccurrences(header, rows[..n]);
      assert rows == rows[..n] + [rows[n]];
      assert multiset(rows) == multiset(rows[..n]) + multiset{rows[n]};
      if |rows[n]| == |header| {
        assert Kept(header, rows) == prefix + [rows[n]];
        assert multiset(prefix + [rows[n]]) == multiset(prefix) + multiset{rows[n]};
      } else {
        assert Kept(header, rows) == prefix;
      }
    }
  }

  /** Filtering commutes with concatenation: the rows kept from a file are
      those kept from its first part followed by those kept from the rest,
      so the kept rows stay in file order. */
  lemma {:induction false} KeptAppend(header: seq<string>, a: seq<seq<string>>, b: seq<seq<string>>)
    ensures Kept(header, a + b) == Kept(header, a) + Kept(header, b)
    decreases |b|
  {
    if b == [] {
      assert a + b == a;
    } else {
      var n := |b| - 1;
      var last := if |b[n]| == |header| then [b[n]] else [];
      assert (a + b)[..|a + b| - 1] == a + b[..n];
      assert (a + b)[|a + b| - 1] == b[n];
      assert Kept(header, a + b) == Kept(header, a + b[..n]) + last;
      assert Kept(header, b) == Kept(header, b[..n]) + last;
      KeptAppend(header, a, b[..n]);
    }
  }

  /** What a successful import added: the records and the count it reports. */
  datatype Imported = Imported(records: seq<Record>, count: nat)

  /** The loop over the data rows: a row as long as the header becomes a
      record and bumps the counter; any other row is skipped. */
  function ImportRows(header: seq<string>, rows: seq<seq<string>>): (r: Imported)
    ensures r.count == |r.records| == |Kept(header, rows)|
    ensures forall i | 0 <= i < |r.records| :: r.records[i] == MapRow(header, Kept(header, rows)[i])
    decreases |rows|
  {
    if rows == [] then Imported([], 0)
    else
      var n := |rows| - 1;
      var acc := ImportRows(header, rows[..n]);
      if |rows[n]| == |header| then
        Imported(acc.records + [MapRow(header, rows[n])], acc.count + 1)
      else
        acc
  }

  // ---------------------------------------------------------------- the route

  /** An uploaded file part: its filename and its content, split into rows. */
  datatype Upload = Upload(filename: string, rows: seq<seq<string>>)

  datatype ImportError =
    | NoFilePart          // the request has no `file` part
    | NoFileSelected      // the file part has an empty filename
    | UnsupportedFormat   // the filename does not end in ".csv"
    | NoHeaderRow         // the file has no row at all: `next` raises
    | HeaderMismatch      // an expected header is missing

  predicate EndsWith(s: string, suffix: string) {
    |suffix| <= |s| && s[|s| - |suffix|..] == suffix
  }

  /** POST /dataset/import_csv on its non-exception path. */
  function ImportCsv(file: Option<Upload>): (r: Result<Imported, ImportError>)
    ensures file.None? ==> r == Err(NoFilePart)
    ensures file.Some? && file.value.filename == "" ==> r == Err(NoFileSelected)
    ensures (file.Some? && file.value.filename != "" && !EndsWith(file.value.filename, ".csv"))
              ==> r == Err(UnsupportedFormat)
    ensures (file.Some? && EndsWith(file.value.filename, ".csv") && file.value.rows == [])
              ==> r == Err(NoHeaderRow)
    ensures (file.Some? && EndsWith(file.value.filename, ".csv") && file.value.rows != []
             && !HeaderComplete(NormalizeHeader(file.value.rows[0])))
              ==> r == Err(HeaderMismatch)
    ensures r.Ok? <==> (file.Some? && EndsWith(file.value.filename, ".csv") && file.value.rows != []
                        && HeaderComplete(NormalizeHeader(file.value.rows[0])))
    ensures r.Ok? ==>
              var header := NormalizeHeader(file.value.rows[0]);
              r.value == ImportRows(header, file.value.rows[1..])
  {
    if file.None? then Err(NoFilePart)
    else if file.value.filename == "" then Err(NoFileSelected)
    else if !EndsWith(file.value.filename, ".csv") then Err(UnsupportedFormat)
    else if file.value.rows == [] then Err(NoHeaderRow)
    else
      var header := NormalizeHeader(file.value.rows[0]);
      if !HeaderComplete(header) then Err(HeaderMismatch)
      else
        Ok(ImportRows(header, file.value.rows[1..]))
  }

  /** Under a complete header every record of the loop has exactly the 14
      fields, each taken from the cell under the (last) column carrying its
      header in the kept row it came from. */
  lemma ImportRowsFields(header: seq<string>, data: seq<seq<string>>)
    requires HeaderComplete(header)
    ensures var r := ImportRows(header, data);
            forall i, c: Column | 0 <= i < |r.records| ::
              c in r.records[i] && r.records[i][c] == CellUnder(header, Kept(header, data)[i], HeaderOf(c))
  {
    var kept := Kept(header, data);
    forall i | 0 <= i < |kept| {
      MapRowFields(header, kept[i]);
    }
  }

  /** A successful import reports as its count the number of data rows as
      long as the header, adds that many records, and each record has
      exactly the 14 fields, each taken from the cell under the (last) column
      carrying its header. */
  lemma ImportedRecords(file: Upload)
    ensures ImportCsv(Some(file)).Ok? ==>
            && file.rows != []
            && var header := NormalizeHeader(file.rows[0]);
               var data := file.rows[1..];
               var r := ImportCsv(Some(file)).value;
               && r.count == |r.records| == |MatchingRows(header, data)|
               && forall i, c: Column | 0 <= i < |r.records| ::
                    c in r.records[i] && r.records[i][c] == CellUnder(header, Kept(header, data)[i], HeaderOf(c))
  {
    if ImportCsv(Some(file)).Ok? {
      var header := NormalizeHeader(file.rows[0]);
      var data := file.rows[1..];
      assert ImportCsv(Some(file)).value == ImportRows(header, data);
      ImportRowsFields(header, data);
    }
  }
}
