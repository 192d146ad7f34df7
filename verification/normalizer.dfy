/**
 * `read_table` of app.py: check the file extension, pick a CSV separator,
 * strip the headers, find the From/To/Amount columns by name, keep only
 * those, trim the endpoint values and rename the columns.
 *
 * The spreadsheet and CSV readers are I/O and foreign code; they enter as
 * parameters: `readSheet` is what the spreadsheet reader returns for the
 * file and `readCsv(sep)` what `pd.read_csv(p, sep=sep)` returns, `None`
 * standing for the reader raising.
 */
module Normalizer {
  import opened Wrappers
  import opened Text

  /** The accepted lower-cased extensions (`SUPPORTED`). */
  const Supported: set<string> := {".ods", ".xlsx", ".xls", ".csv"}

  /** The separators tried, in order, for CSV files. */
  const Separators: seq<char> := [',', ';', ' ', '|']

  /** The separator `pd.read_csv` uses when none is given. */
  const DefaultSeparator: char := ','

  const FromTokens: seq<string> := ["from"]
  const ToTokens: seq<string> := ["to"]
  const AmountTokens: seq<string> := ["amount", "amt"]

  /**
   * One cell as the reader produced it: `text` is what `str(...)`
   * (`astype(str)`) makes of it and `number` what
   * `pd.to_numeric(..., errors='coerce')` makes of it.
   */
  datatype Cell = Cell(text: string, number: Option<int>)

  /** A data frame as read: column labels and rows of cells. */
  datatype Table = Table(headers: seq<string>, rows: seq<seq<Cell>>)

  predicate Rectangular(t: Table)
  {
    forall i :: 0 <= i < |t.rows| ==> |t.rows[i]| == |t.headers|
  }

  /** Data frames are rectangular: every row has a cell per column. */
  type Frame = t: Table | Rectangular(t) witness Table([], [])

  /** A row of the canonical relation. */
  datatype Row = Row(from: string, to: string, amount: Option<int>)

  /** The frame `read_table` returns: its column labels and its rows. */
  datatype Relation = Relation(columns: seq<string>, rows: seq<Row>)

  datatype Error =
    | UnsupportedFormat(ext: string)  // the extension is not in Supported
    | Unreadable                      // the reader raised
    | MissingColumns                  // no From or no To column
    | DuplicateColumns                // a selected label names several columns, so pandas raises

  // ---------------------------------------------------------------------
  // Column discovery (`find_col`)

  /** The matching key of a header: lower-cased, spaces removed. */
  function Key(name: string): string
  {
    RemoveSpaces(Lower(name))
  }

  /** `any(c in key for c in candidates)` */
  predicate ContainsAny(cands: seq<string>, key: string)
  {
    exists c :: c in cands && IsInfix(c, key)
  }

  /** First pass of `find_col`: the first header from `i` on whose key equals a candidate. */
  function ExactFrom(hs: seq<string>, cands: seq<string>, i: nat): (r: Option<nat>)
    requires i <= |hs|
    decreases |hs| - i
    ensures r.Some? ==> i <= r.value < |hs| && Key(hs[r.value]) in cands
    ensures r.Some? ==> forall j :: i <= j < r.value ==> Key(hs[j]) !in cands
    ensures r.None? ==> forall j :: i <= j < |hs| ==> Key(hs[j]) !in cands
  {
    if i == |hs| then None
    else if Key(hs[i]) in cands then Some(i)
    else ExactFrom(hs, cands, i + 1)
  }

  /** Second pass of `find_col`: the first header from `i` on whose key contains a candidate. */
  function PartialFrom(hs: seq<string>, cands: seq<string>, i: nat): (r: Option<nat>)
    requires i <= |hs|
    decreases |hs| - i
    ensures r.Some? ==> i <= r.value < |hs| && ContainsAny(cands, Key(hs[r.value]))
    ensures r.Some? ==> forall j :: i <= j < r.value ==> !ContainsAny(cands, Key(hs[j]))
    ensures r.None? ==> forall j :: i <= j < |hs| ==> !ContainsAny(cands, Key(hs[j]))
  {
    if i == |hs| then None
    else if ContainsAny(cands, Key(hs[i])) then Some(i)
    else PartialFrom(hs, cands, i + 1)
  }

  /** `find_col(candidates)` over the (already stripped) headers `hs`. */
  function FindCol(hs: seq<string>, cands: seq<string>): (r: Option<string>)
    ensures r.Some? ==> r.value in hs
  {
    match ExactFrom(hs, cands, 0)
    case Some(i) => Some(hs[i])
    case None =>
      match PartialFrom(hs, cands, 0)
      case Some(i) => Some(hs[i])
      case None => None
  }

  /**
   * Exact matches take precedence: when header `i` is the leftmost whose
   * key equals a candidate, it is the one found, whatever headers before it
   * merely contain a candidate.
   */
  lemma FindColExactFirst(hs: seq<string>, cands: seq<string>, i: nat)
    requires i < |hs| && Key(hs[i]) in cands
    requires forall j :: 0 <= j < i ==> Key(hs[j]) !in cands
    ensures FindCol(hs, cands) == Some(hs[i])
  {
    var r := ExactFrom(hs, cands, 0);
    assert r.Some?;
    assert !(r.value < i) && !(i < r.value);
  }

  /**
   * With no exact match, the leftmost header whose key contains a candidate
   * is the one found.
   */
  lemma FindColPartialLeftmost(hs: seq<string>, cands: seq<string>, i: nat)
    requires forall j :: 0 <= j < |hs| ==> Key(hs[j]) !in cands
    requires i < |hs| && ContainsAny(cands, Key(hs[i]))
    requires forall j :: 0 <= j < i ==> !ContainsAny(cands, Key(hs[j]))
    ensures FindCol(hs, cands) == Some(hs[i])
  {
    var r := PartialFrom(hs, cands, 0);
    assert r.Some?;
    assert !(r.value < i) && !(i < r.value);
  }

  /** A key equal to a candidate also contains it, so the exact pass never finds more. */
  lemma EqualKeyContains(cands: seq<string>, key: string)
    requires key in cands
    ensures ContainsAny(cands, key)
  {
    assert IsPrefix(key, key);
  }

  /**
   * `find_col` finds nothing exactly when no header's key contains a
   * candidate; what it finds is a header whose key contains one, and, as the
   * candidates are non-empty, never the empty label.
   */
  lemma FindColNoneIff(hs: seq<string>, cands: seq<string>)
    requires forall c :: c in cands ==> c != ""
    ensures FindCol(hs, cands).None? <==> forall j :: 0 <= j < |hs| ==> !ContainsAny(cands, Key(hs[j]))
    ensures FindCol(hs, cands).Some? ==> ContainsAny(cands, Key(FindCol(hs, cands).value))
    ensures FindCol(hs, cands).Some? ==> FindCol(hs, cands).value != ""
  {
    match ExactFrom(hs, cands, 0)
    case Some(i) =>
      EqualKeyContains(cands, Key(hs[i]));
      NonEmptyMatch(cands, hs[i]);
    case None =>
      match PartialFrom(hs, cands, 0)
      case Some(i) => NonEmptyMatch(cands, hs[i]);
      case None =>
  }

  /** A header whose key contains a non-empty candidate is not empty. */
  lemma NonEmptyMatch(cands: seq<string>, h: string)
    requires forall c :: c in cands ==> c != ""
    requires ContainsAny(cands, Key(h))
    ensures h != ""
  {
    var c :| c in cands && IsInfix(c, Key(h));
    InfixShorter(c, Key(h));
  }

  lemma {:induction false} InfixShorter(t: string, s: string)
    requires IsInfix(t, s)
    ensures |t| <= |s|
  {
    if !IsPrefix(t, s) {
      InfixShorter(t, s[1..]);
    }
  }

  // ---------------------------------------------------------------------
  // Projection, trimming, renaming

  /** Python truthiness of `find_col`'s answer: found and not the empty label. */
  predicate Found(o: Option<string>)
  {
    o.Some? && o.value != ""
  }

  /**
   * The labels with surrounding whitespace cut off: each label keeps its
   * place and becomes the piece of itself left between whitespace-only ends,
   * with no whitespace at either end.
   */
  function StripAll(hs: seq<string>): (r: seq<string>)
    ensures |r| == |hs|
    ensures forall i :: 0 <= i < |hs| ==> IsStripped(r[i]) && TrimmedFrom(hs[i], r[i])
  {
    seq(|hs|, i requires 0 <= i < |hs| => Strip(hs[i]))
  }

  /** The first column labelled `x`. */
  function IndexOf(hs: seq<string>, x: string): (r: nat)
    requires x in hs
    ensures r < |hs| && hs[r] == x
    ensures forall j :: 0 <= j < r ==> hs[j] != x
  {
    if hs[0] == x then 0 else 1 + IndexOf(hs[1..], x)
  }

  /** How many times `k` occurs in `xs`. */
  function Count(xs: seq<string>, k: string): nat
  {
    if xs == [] then 0 else (if xs[0] == k then 1 else 0) + Count(xs[1..], k)
  }

  /**
   * pandas raises when one of the kept labels selects more than one column
   * of `df[keep]`: that happens when the label occurs twice in `keep` or
   * twice among the headers.
   */
  predicate Ambiguous(hs: seq<string>, keep: seq<string>)
  {
    exists k :: k in keep && (Count(hs, k) > 1 || Count(keep, k) > 1)
  }

  /** The columns kept, in order: From, To and, when found, Amount. */
  function Keep(f: string, d: string, a: Option<string>): seq<string>
  {
    [f, d] + (if Found(a) then [a.value] else [])
  }

  function CanonicalColumns(hasAmount: bool): seq<string>
  {
    if hasAmount then ["From", "To", "Amount"] else ["From", "To"]
  }

  /** The positions of the From, To and (optional) Amount columns. */
  datatype Roles = Roles(from: nat, to: nat, amount: Option<nat>)

  predicate RolesWithin(roles: Roles, width: nat)
  {
    roles.from < width && roles.to < width && (roles.amount.Some? ==> roles.amount.value < width)
  }

  /** Column discovery on the stripped headers, with the two ways it raises. */
  function Resolve(hs: seq<string>): (r: Result<Roles, Error>)
    ensures r.Success? ==> RolesWithin(r.value, |hs|)
  {
    var f := FindCol(hs, FromTokens);
    var d := FindCol(hs, ToTokens);
    var a := FindCol(hs, AmountTokens);
    if !Found(f) || !Found(d) then Failure(MissingColumns)
    else if Ambiguous(hs, Keep(f.value, d.value, a)) then Failure(DuplicateColumns)
    else Success(Roles(IndexOf(hs, f.value), IndexOf(hs, d.value),
                       if Found(a) then Some(IndexOf(hs, a.value)) else None))
  }

  /** `df[keep]` with From/To stripped (`astype(str).str.strip()`) and Amount coerced. */
  function Project(t: Frame, roles: Roles): seq<Row>
    requires RolesWithin(roles, |t.headers|)
  {
    seq(|t.rows|, i requires 0 <= i < |t.rows| =>
      Row(Strip(t.rows[i][roles.from].text),
          Strip(t.rows[i][roles.to].text),
          if roles.amount.Some? then t.rows[i][roles.amount.value].number else None))
  }

  /** Everything `read_table` does after the reader returned the frame `t`. */
  function Normalize(t: Frame): Result<Relation, Error>
  {
    match Resolve(StripAll(t.headers))
    case Failure(e) => Failure(e)
    case Success(roles) => Success(Relation(CanonicalColumns(roles.amount.Some?), Project(t, roles)))
  }

  /**
   * `Normalize` fails with MissingColumns exactly when no header can play
   * the From role or none can play the To role; whether an Amount column
   * exists never matters for that; and it fails with nothing but
   * MissingColumns or DuplicateColumns.
   */
  lemma NormalizeMissingColumns(t: Frame)
    ensures var hs := StripAll(t.headers);
      Normalize(t) == Failure(MissingColumns) <==>
        FindCol(hs, FromTokens).None? || FindCol(hs, ToTokens).None?
    ensures Normalize(t).Failure? ==> Normalize(t).error in {MissingColumns, DuplicateColumns}
  {
    var hs := StripAll(t.headers);
    FindColNoneIff(hs, FromTokens);
    FindColNoneIff(hs, ToTokens);
  }

  /** On success the roles are two different headers and the columns they head. */
  lemma ResolveSuccess(hs: seq<string>)
    requires Resolve(hs).Success?
    ensures var roles := Resolve(hs).value;
      var a := FindCol(hs, AmountTokens);
      && FindCol(hs, FromTokens) == Some(hs[roles.from])
      && FindCol(hs, ToTokens) == Some(hs[roles.to])
      && roles.from != roles.to && hs[roles.from] != hs[roles.to]
      && Count(hs, hs[roles.from]) == 1 && Count(hs, hs[roles.to]) == 1
      && roles.amount.Some? == a.Some?
      && (a.Some? ==> a.value == hs[roles.amount.value])
  {
    FindColNoneIff(hs, AmountTokens);
    var f := FindCol(hs, FromTokens).value;
    var d := FindCol(hs, ToTokens).value;
    var keep := Keep(f, d, FindCol(hs, AmountTokens));
    assert keep[0] == f && keep[1] == d;
    assert Count(keep, f) == (if f == d then 2 else 1) + Count(keep[2..], f) by {
      assert keep[1..][1..] == keep[2..];
    }
    assert f in keep && d in keep;
    CountPositive(hs, f);
    CountPositive(hs, d);
  }

  /**
   * On success the Amount column is a third column: its label occurs once
   * and is neither the From nor the To label.
   */
  lemma ResolveAmountDistinct(hs: seq<string>)
    requires Resolve(hs).Success?
    ensures var roles := Resolve(hs).value;
      var a := FindCol(hs, AmountTokens);
      a.Some? ==> Count(hs, a.value) == 1 && a.value != hs[roles.from] && a.value != hs[roles.to]
  {
    ResolveSuccess(hs);
    FindColNoneIff(hs, AmountTokens);
    var f := FindCol(hs, FromTokens).value;
    var d := FindCol(hs, ToTokens).value;
    var a := FindCol(hs, AmountTokens);
    if a.Some? {
      var keep := Keep(f, d, a);
      assert keep == [f, d, a.value];
      CountThree(f, d, a.value, a.value);
      CountPositive(hs, a.value);
    }
  }

  /**
   * One header chosen for two roles (a `FromAmt` header is both From and
   * Amount) makes pandas raise, so normalising fails with DuplicateColumns.
   */
  lemma SharedHeaderFails(hs: seq<string>)
    requires Found(FindCol(hs, FromTokens)) && Found(FindCol(hs, ToTokens))
    requires var f, d, a := FindCol(hs, FromTokens), FindCol(hs, ToTokens), FindCol(hs, AmountTokens);
      f == d || f == a || d == a
    ensures Resolve(hs) == Failure(DuplicateColumns)
  {
    var f := FindCol(hs, FromTokens).value;
    var d := FindCol(hs, ToTokens).value;
    var a := FindCol(hs, AmountTokens);
    var keep := Keep(f, d, a);
    assert keep[0] == f && keep[1] == d && keep[1..][0] == d;
    if f == d {
      assert keep == [f, d] + keep[2..];
      CountTwo(f, d, keep[2..], f);
      assert f in keep;
    } else {
      assert keep == [f, d, a.value];
      CountThree(f, d, a.value, f);
      CountThree(f, d, a.value, d);
      assert f in keep && d in keep;
    }
  }

  lemma CountTwo(x: string, y: string, rest: seq<string>, k: string)
    ensures Count([x, y] + rest, k) == (if x == k then 1 else 0) + (if y == k then 1 else 0) + Count(rest, k)
  {
    assert ([x, y] + rest)[1..] == [y] + rest;
    assert ([y] + rest)[1..] == rest;
  }

  lemma CountThree(x: string, y: string, z: string, k: string)
    ensures Count([x, y, z], k) == (if x == k then 1 else 0) + (if y == k then 1 else 0) + (if z == k then 1 else 0)
  {
    CountTwo(x, y, [z], k);
    assert [x, y, z] == [x, y] + [z];
    assert [z][1..] == [];
  }

  lemma {:induction false} CountPositive(xs: seq<string>, x: string)
    requires x in xs
    ensures Count(xs, x) >= 1
  {
    if xs[0] != x {
      CountPositive(xs[1..], x);
    }
  }

  /**
   * On success the relation has the canonical columns, Amount exactly when
   * an amount column was resolved; one row per input row; each From/To
   * value is the stripped text of the cell in the From/To column; and an
   * amount is present only when the Amount column exists, and then it is the
   * numeric reading of the cell in that column. (ResolveSuccess says which
   * columns the roles are.)
   */
  lemma NormalizeSuccess(t: Frame)
    requires Normalize(t).Success?
    ensures Resolve(StripAll(t.headers)).Success?
    ensures var roles := Resolve(StripAll(t.headers)).value;
      var rel := Normalize(t).value;
      && rel.columns == CanonicalColumns(roles.amount.Some?)
      && |rel.rows| == |t.rows|
      && (forall i :: 0 <= i < |t.rows| ==>
            && rel.rows[i].from == Strip(t.rows[i][roles.from].text)
            && rel.rows[i].to == Strip(t.rows[i][roles.to].text)
            && IsStripped(rel.rows[i].from) && IsStripped(rel.rows[i].to)
            && rel.rows[i].amount == if roles.amount.Some? then t.rows[i][roles.amount.value].number else None)
  {
  }

  /**
   * A frame with fewer than two columns never normalises: From and To must
   * be two different labels, each naming a column.
   */
  lemma NarrowFrameFails(t: Frame)
    requires |t.headers| < 2
    ensures Normalize(t).Failure?
  {
    NarrowHeadersFail(StripAll(t.headers));
  }

  lemma NarrowHeadersFail(hs: seq<string>)
    requires |hs| < 2
    ensures Resolve(hs).Failure?
  {
    var f := FindCol(hs, FromTokens);
    var d := FindCol(hs, ToTokens);
    if Found(f) && Found(d) {
      var keep := Keep(f.value, d.value, FindCol(hs, AmountTokens));
      assert keep[0] == hs[0] && keep[1] == hs[0];
      assert Count(keep, hs[0]) >= 2 by {
        assert keep[1..][0] == hs[0];
      }
      assert Ambiguous(hs, keep);
    }
  }

  // ---------------------------------------------------------------------
  // Reading the file

  /** The extension `read_table` dispatches on: `Path(path).suffix.lower()`. */
  function Extension(path: string): string
  {
    Lower(Suffix(FileName(path)))
  }

  /** `pd.read_csv(p, sep=sep)` succeeded with at least two columns. */
  predicate Wide(readCsv: char -> Option<Frame>, sep: char)
  {
    readCsv(sep).Some? && |readCsv(sep).value.headers| >= 2
  }

  /**
   * The frame read from a CSV file: that of the first separator among
   * ',', ';', ' ', '|' giving at least two columns, else whatever the
   * default separator gives.
   */
  function CsvFrame(readCsv: char -> Option<Frame>): Option<Frame>
  {
    if Wide(readCsv, ',') then readCsv(',')
    else if Wide(readCsv, ';') then readCsv(';')
    else if Wide(readCsv, ' ') then readCsv(' ')
    else if Wide(readCsv, '|') then readCsv('|')
    else readCsv(DefaultSeparator)
  }

  /**
   * The CSV frame is that of the first separator, in the order
   * ',', ';', ' ', '|', that gives at least two columns; when none does it is
   * the default reading.
   */
  lemma CsvFrameFirstWide(readCsv: char -> Option<Frame>, i: nat)
    requires i <= |Separators|
    requires forall j :: 0 <= j < i ==> !Wide(readCsv, Separators[j])
    ensures i < |Separators| && Wide(readCsv, Separators[i]) ==> CsvFrame(readCsv) == readCsv(Separators[i])
    ensures i == |Separators| ==> CsvFrame(readCsv) == readCsv(DefaultSeparator)
  {
    assert Separators[0] == ',' && Separators[1] == ';' && Separators[2] == ' ' && Separators[3] == '|';
    if i > 0 { assert !Wide(readCsv, ','); }
    if i > 1 { assert !Wide(readCsv, ';'); }
    if i > 2 { assert !Wide(readCsv, ' '); }
    if i > 3 { assert !Wide(readCsv, '|'); }
  }

  /**
   * When the default reading is used it has fewer than two columns, and
   * such a frame can only fail to normalise.
   */
  lemma CsvFallbackFails(readCsv: char -> Option<Frame>)
    requires forall j :: 0 <= j < |Separators| ==> !Wide(readCsv, Separators[j])
    ensures Load(CsvFrame(readCsv)).Failure?
  {
    CsvFrameFirstWide(readCsv, |Separators|);
    assert !Wide(readCsv, Separators[0]);
    if CsvFrame(readCsv).Some? {
      NarrowFrameFails(CsvFrame(readCsv).value);
    }
  }

  /** The separator loop of `read_table`, falling back to the default separator. */
  method ChooseCsvFrame(readCsv: char -> Option<Frame>) returns (df: Option<Frame>)
    ensures df == CsvFrame(readCsv)
  {
    var chosen: Option<Frame> := None;
    for i := 0 to |Separators|
      invariant chosen.None?
      invariant forall j :: 0 <= j < i ==> !Wide(readCsv, Separators[j])
    {
      var tmp := readCsv(Separators[i]);
      if tmp.Some? && |tmp.value.headers| >= 2 {
        CsvFrameFirstWide(readCsv, i);
        chosen := tmp;
        break;
      }
    }
    if chosen.None? {
      CsvFrameFirstWide(readCsv, |Separators|);
      df := readCsv(DefaultSeparator);
    } else {
      df := chosen;
    }
  }

  /** Reading and normalising never reports an unsupported format. */
  lemma LoadErrors(df: Option<Frame>)
    ensures Load(df).Failure? ==> Load(df).error in {Unreadable, MissingColumns, DuplicateColumns}
  {
    if df.Some? {
      NormalizeMissingColumns(df.value);
    }
  }

  function Load(df: Option<Frame>): Result<Relation, Error>
  {
    match df
    case None => Failure(Unreadable)
    case Some(t) => Normalize(t)
  }

  /** The four accepted extensions, one by one; only ".csv" goes to the CSV reader. */
  lemma SupportedCases(ext: string)
    ensures ext in Supported <==> ext == ".ods" || ext in {".xlsx", ".xls"} || ext == ".csv"
    ensures ext in Supported - {".csv"} <==> ext == ".ods" || ext in {".xlsx", ".xls"}
  {
    assert ".csv"[1] != ".ods"[1] && ".csv"[1] != ".xlsx"[1] && ".csv"[1] != ".xls"[1];
  }

  /**
   * `read_table(path)`: UnsupportedFormat exactly for an unknown extension;
   * otherwise the normalised frame of the spreadsheet reader, or of the
   * separator search for ".csv".
   */
  method ReadTable(path: string, readSheet: Option<Frame>, readCsv: char -> Option<Frame>)
    returns (r: Result<Relation, Error>)
    ensures (r.Failure? && r.error.UnsupportedFormat?) <==> Extension(path) !in Supported
    ensures Extension(path) !in Supported ==> r == Failure(UnsupportedFormat(Extension(path)))
    ensures Extension(path) in Supported - {".csv"} ==> r == Load(readSheet)
    ensures Extension(path) == ".csv" ==> r == Load(CsvFrame(readCsv))
  {
    var ext := Extension(path);
    SupportedCases(ext);
    if ext !in Supported {
      return Failure(UnsupportedFormat(ext));
    }
    var df: Option<Frame>;
    if ext == ".ods" {
      df := readSheet;          // the OpenDocument engine
    } else if ext in {".xlsx", ".xls"} {
      df := readSheet;          // the default Excel engine
    } else {
      df := ChooseCsvFrame(readCsv);
    }
    LoadErrors(df);
    r := Load(df);
  }
}
