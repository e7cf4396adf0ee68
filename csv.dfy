/**
 * `parseCsv` of the bulk downloader page: the track list file is cut into
 * lines at `\r?\n`, every line is trimmed, blank lines are dropped, an
 * optional header line is skipped, and the first comma-separated field of
 * each remaining line is kept.
 */
module Csv {
  import opened Text

  /** Removes the `\r` that belongs to a `\r\n` line break. */
  function DropCr(p: string): string {
    if p != [] && p[|p| - 1] == '\r' then p[..|p| - 1] else p
  }

  /**
   * `text.split(/\r?\n/)`: the pieces between `\n` characters, where a `\r`
   * directly before a `\n` is part of the break. The last piece is followed
   * by no break, so a `\r` ending it stays.
   */
  function SplitLines(text: string): (r: seq<string>)
    ensures |r| >= 1
    ensures forall i :: 0 <= i < |r| ==> '\n' !in r[i]
  {
    var ps := Split(text, '\n');
    seq(|ps|, i requires 0 <= i < |ps| => if i < |ps| - 1 then DropCr(ps[i]) else ps[i])
  }

  /** `.map((l) => l.trim()).filter(Boolean)`: the trimmed non-blank lines, in order. */
  function CleanLines(ls: seq<string>): (r: seq<string>)
    ensures |r| <= |ls|
    ensures forall k :: 0 <= k < |r| ==> r[k] != [] && IsTrimmed(r[k])
  {
    if ls == [] then []
    else
      var t := Trim(ls[0]);
      if t == [] then CleanLines(ls[1..]) else [t] + CleanLines(ls[1..])
  }

  /** The positions of the lines that are not blank. */
  function NonBlankIndices(ls: seq<string>): set<int> {
    set i | 0 <= i < |ls| && Trim(ls[i]) != []
  }

  predicate IsHeaderName(line: string) {
    var lower := ToLower(line);
    lower == "tnumber" || lower == "t_number" || lower == "t"
  }

  /** The first non-blank line names the column. */
  predicate HasHeader(lines: seq<string>) {
    |lines| > 0 && IsHeaderName(lines[0])
  }

  function DataLines(lines: seq<string>): seq<string> {
    if HasHeader(lines) then lines[1..] else lines
  }

  /** `line.split(",")[0].trim()`. */
  function FirstField(line: string): (r: string)
    ensures ',' !in r
    ensures IsTrimmed(r)
  {
    var field := Split(line, ',')[0];
    TrimKeepsAbsent(field, ',');
    Trim(field)
  }

  /** The first field of every data line of the cleaned lines. */
  function FirstFields(lines: seq<string>): seq<string> {
    var data := DataLines(lines);
    seq(|data|, k requires 0 <= k < |data| => FirstField(data[k]))
  }

  function ParseCsv(text: string): (r: seq<string>)
    ensures forall k :: 0 <= k < |r| ==> ',' !in r[k] && IsTrimmed(r[k])
  {
    FirstFields(CleanLines(SplitLines(text)))
  }

  // ---- helpers about trimming ----

  /** Trimming never brings in a character that was not there. */
  lemma TrimKeepsAbsent(s: string, c: char)
    requires c !in s
    ensures c !in Trim(s)
  {
    var t := TrimStart(s);
    TrimStartShape(s);
    assert t == s[|s| - |t|..];
    var r := TrimEnd(t);
    TrimEndShape(t);
    assert r == t[..|r|];
  }

  lemma TrimDropCr(p: string)
    ensures Trim(DropCr(p)) == Trim(p)
  {
    if p != [] && p[|p| - 1] == '\r' {
      assert p == [] + DropCr(p) + "\r";
      assert AllSpace([]) && AllSpace("\r");
      TrimPadded([], DropCr(p), "\r");
    }
  }

  // ---- properties of CleanLines ----

  /** Cleaning distributes over concatenation, so it keeps the order of the lines. */
  lemma {:induction false} CleanLinesAppend(a: seq<string>, b: seq<string>)
    ensures CleanLines(a + b) == CleanLines(a) + CleanLines(b)
  {
    if a == [] {
      assert a + b == b;
    } else {
      assert (a + b)[0] == a[0];
      assert (a + b)[1..] == a[1..] + b;
      CleanLinesAppend(a[1..], b);
    }
  }

  /** Each cleaned line is the trimmed text of a non-blank input line. */
  lemma {:induction false} CleanLinesSource(ls: seq<string>, k: nat) returns (i: nat)
    requires k < |CleanLines(ls)|
    ensures i < |ls| && Trim(ls[i]) != [] && Trim(ls[i]) == CleanLines(ls)[k]
  {
    if Trim(ls[0]) == [] {
      i := CleanLinesSource(ls[1..], k);
      i := i + 1;
    } else if k == 0 {
      i := 0;
    } else {
      i := CleanLinesSource(ls[1..], k - 1);
      i := i + 1;
    }
  }

  /** Appending a line adds its position when it is not blank. */
  lemma NonBlankIndicesSnoc(init: seq<string>, x: string)
    ensures NonBlankIndices(init + [x])
      == NonBlankIndices(init) + (if Trim(x) == [] then {} else {|init|})
  {
    var ls := init + [x];
    var a := NonBlankIndices(ls);
    var b := NonBlankIndices(init) + (if Trim(x) == [] then {} else {|init|});
    forall i | i in a ensures i in b {
      if i < |init| {
        assert ls[i] == init[i];
      } else {
        assert ls[i] == x;
      }
    }
    forall i | i in b ensures i in a {
      if i < |init| {
        assert ls[i] == init[i];
      } else {
        assert ls[|init|] == x;
      }
    }
  }

  /** One output line per non-blank input line. */
  lemma {:induction false} CleanLinesCount(ls: seq<string>)
    ensures |CleanLines(ls)| == |NonBlankIndices(ls)|
  {
    if ls == [] {
      assert NonBlankIndices(ls) == {};
    } else {
      var n := |ls| - 1;
      var init := ls[..n];
      var x := ls[n];
      assert ls == init + [x];
      CleanLinesAppend(init, [x]);
      CleanLinesCount(init);
      NonBlankIndicesSnoc(init, x);
      assert [x][1..] == [];
      assert CleanLines([x]) == (if Trim(x) == [] then [] else [Trim(x)]);
      assert n !in NonBlankIndices(init);
    }
  }

  /** The first cleaned line is the trimmed first non-blank line. */
  lemma {:induction false} CleanLinesHead(ls: seq<string>, i: nat)
    requires i < |ls| && Trim(ls[i]) != []
    requires forall j :: 0 <= j < i ==> Trim(ls[j]) == []
    ensures CleanLines(ls) != [] && CleanLines(ls)[0] == Trim(ls[i])
  {
    if i > 0 {
      assert Trim(ls[0]) == [];
      CleanLinesHead(ls[1..], i - 1);
    }
  }

  /** Lines that trim to the same text clean to the same list. */
  lemma {:induction false} CleanLinesTrimEq(a: seq<string>, b: seq<string>)
    requires |a| == |b|
    requires forall i :: 0 <= i < |a| ==> Trim(a[i]) == Trim(b[i])
    ensures CleanLines(a) == CleanLines(b)
  {
    if a != [] {
      CleanLinesTrimEq(a[1..], b[1..]);
    }
  }

  /** Blank lines contribute nothing. */
  lemma {:induction false} CleanLinesAllBlank(ls: seq<string>)
    requires forall i :: 0 <= i < |ls| ==> AllSpace(ls[i])
    ensures CleanLines(ls) == []
  {
    if ls != [] {
      TrimEmptyIffAllSpace(ls[0]);
      CleanLinesAllBlank(ls[1..]);
    }
  }

  // ---- properties of ParseCsv ----

  /** Output length: the number of non-blank lines, less one for a header. */
  lemma ParseCsvLength(text: string)
    ensures var lines := CleanLines(SplitLines(text));
      |ParseCsv(text)| == |NonBlankIndices(SplitLines(text))| - (if HasHeader(lines) then 1 else 0)
  {
    CleanLinesCount(SplitLines(text));
  }

  /**
   * The header test looks at the first non-blank line of the text, trimmed
   * and lower-cased; that line is dropped exactly when it names the column.
   */
  lemma ParseCsvHeader(text: string, i: nat)
    requires i < |SplitLines(text)|
    requires Trim(SplitLines(text)[i]) != []
    requires forall j :: 0 <= j < i ==> Trim(SplitLines(text)[j]) == []
    ensures HasHeader(CleanLines(SplitLines(text))) <==> IsHeaderName(Trim(SplitLines(text)[i]))
    ensures var lines := CleanLines(SplitLines(text));
      |ParseCsv(text)| == if IsHeaderName(Trim(SplitLines(text)[i])) then |lines| - 1 else |lines|
  {
    CleanLinesHead(SplitLines(text), i);
  }

  /**
   * The k-th output element is the first field of the k-th data line: of
   * the cleaned line at the same position, or one further on once a header
   * is skipped.
   */
  lemma FirstFieldsAt(lines: seq<string>, k: nat)
    requires k < |FirstFields(lines)|
    ensures var skip := if HasHeader(lines) then 1 else 0;
      k + skip < |lines| && FirstFields(lines)[k] == FirstField(lines[k + skip])
  {
  }

  /**
   * Every output element is the first field of a non-blank line of the
   * text, trimmed.
   */
  lemma ParseCsvElement(text: string, k: nat) returns (i: nat)
    requires k < |ParseCsv(text)|
    ensures i < |SplitLines(text)| && Trim(SplitLines(text)[i]) != []
    ensures ParseCsv(text)[k] == FirstField(Trim(SplitLines(text)[i]))
  {
    var j := DataLineOf(text, k);
    i := CleanLinesSource(SplitLines(text), j);
  }

  /** The cleaned line the k-th output element comes from. */
  lemma DataLineOf(text: string, k: nat) returns (j: nat)
    requires k < |ParseCsv(text)|
    ensures j < |CleanLines(SplitLines(text))|
    ensures ParseCsv(text)[k] == FirstField(CleanLines(SplitLines(text))[j])
  {
    var lines := CleanLines(SplitLines(text));
    assert ParseCsv(text) == FirstFields(lines);
    j := FirstFieldsSource(lines, k);
  }

  lemma FirstFieldsSource(lines: seq<string>, k: nat) returns (j: nat)
    requires k < |FirstFields(lines)|
    ensures j < |lines| && FirstFields(lines)[k] == FirstField(lines[j])
  {
    FirstFieldsAt(lines, k);
    j := k + if HasHeader(lines) then 1 else 0;
  }

  /** The first field is exactly what comes before the first comma, trimmed. */
  lemma FirstFieldBeforeComma(p: string, q: string)
    requires ',' !in p
    ensures FirstField(p + "," + q) == Trim(p)
  {
    FirstPiece(p, ',', q);
  }

  /** A line without a comma is kept whole (trimmed). */
  lemma FirstFieldNoComma(line: string)
    requires ',' !in line
    ensures FirstField(line) == Trim(line)
  {
    SplitNoSep(line, ',');
  }

  /** Splitting an all-whitespace string gives all-whitespace pieces. */
  lemma {:induction false} SplitAllSpace(s: string, sep: char)
    requires AllSpace(s)
    ensures forall i :: 0 <= i < |Split(s, sep)| ==> AllSpace(Split(s, sep)[i])
  {
    if s != [] {
      assert AllSpace(s[1..]) by {
        forall j | 0 <= j < |s| - 1 ensures IsSpace(s[1..][j]) {
          assert s[1..][j] == s[j + 1];
        }
      }
      SplitAllSpace(s[1..], sep);
      var rest := Split(s[1..], sep);
      if s[0] != sep {
        var first := [s[0]] + rest[0];
        assert AllSpace(first) by {
          forall j | 0 <= j < |first| ensures IsSpace(first[j]) {
            if j > 0 { assert first[j] == rest[0][j - 1]; }
          }
        }
      }
    }
  }

  /** Empty or all-blank text yields no track numbers and no header. */
  lemma ParseCsvBlank(text: string)
    requires AllSpace(text)
    ensures ParseCsv(text) == []
    ensures !HasHeader(CleanLines(SplitLines(text)))
  {
    var ps := Split(text, '\n');
    SplitAllSpace(text, '\n');
    var ls := SplitLines(text);
    forall i | 0 <= i < |ls| ensures AllSpace(ls[i]) {
      assert AllSpace(ps[i]);
      if i < |ps| - 1 && ps[i] != [] && ps[i][|ps[i]| - 1] == '\r' {
        assert ls[i] == ps[i][..|ps[i]| - 1];
        forall j | 0 <= j < |ls[i]| ensures IsSpace(ls[i][j]) {
          assert ls[i][j] == ps[i][j];
        }
      }
    }
    CleanLinesAllBlank(ls);
  }

  // ---- line endings ----

  /** The same text with every `\n` written as `\r\n`. */
  function ToCrlf(s: string): string {
    if s == [] then []
    else (if s[0] == '\n' then "\r\n" else [s[0]]) + ToCrlf(s[1..])
  }

  /** Appends `\r` to every piece but the last. */
  function AppendCr(ps: seq<string>): (r: seq<string>)
    ensures |r| == |ps|
  {
    seq(|ps|, i requires 0 <= i < |ps| => if i < |ps| - 1 then ps[i] + "\r" else ps[i])
  }

  lemma AppendCrCons(x: string, p: seq<string>)
    requires |p| >= 1
    ensures AppendCr([x] + p) == [x + "\r"] + AppendCr(p)
  {
    var l := AppendCr([x] + p);
    var r := [x + "\r"] + AppendCr(p);
    forall i | 0 <= i < |l| ensures l[i] == r[i] {
      if i > 0 { assert ([x] + p)[i] == p[i - 1]; }
    }
  }

  /** Splitting `\r\n` followed by `c`. */
  lemma SplitCrNewline(c: string)
    ensures Split("\r\n" + c, '\n') == [['\r']] + Split(c, '\n')
  {
    var t := "\r\n" + c;
    assert t == ['\r'] + ("\n" + c);
    assert ("\n" + c)[0] == '\n' && ("\n" + c)[1..] == c;
    var rest := Split("\n" + c, '\n');
    assert rest == [[]] + Split(c, '\n');
    assert rest[0] == [] && rest[1..] == Split(c, '\n');
    SplitCons(t, '\n');
    assert ['\r'] + rest[0] == ['\r'];
  }

  /** Prepending a character to the first piece commutes with `AppendCr`. */
  lemma AppendCrHead(x: char, p: seq<string>)
    requires |p| >= 1
    ensures AppendCr([[x] + p[0]] + p[1..]) == [[x] + AppendCr(p)[0]] + AppendCr(p)[1..]
  {
    var l := AppendCr([[x] + p[0]] + p[1..]);
    var r := [[x] + AppendCr(p)[0]] + AppendCr(p)[1..];
    forall i | 0 <= i < |l| ensures l[i] == r[i] {
      if i > 0 {
        assert ([[x] + p[0]] + p[1..])[i] == p[i];
      }
    }
  }

  lemma {:induction false} SplitToCrlf(s: string)
    ensures Split(ToCrlf(s), '\n') == AppendCr(Split(s, '\n'))
  {
    if s != [] {
      SplitToCrlf(s[1..]);
      var c := ToCrlf(s[1..]);
      var p := Split(s[1..], '\n');
      if s[0] == '\n' {
        assert ToCrlf(s) == "\r\n" + c;
        SplitCrNewline(c);
        assert Split(s, '\n') == [[]] + p;
        AppendCrCons([], p);
        assert [] + "\r" == ['\r'];
      } else {
        var t := [s[0]] + c;
        assert ToCrlf(s) == t && t[0] == s[0] && t[1..] == c;
        SplitCons(t, '\n');
        SplitCons(s, '\n');
        AppendCrHead(s[0], p);
      }
    }
  }

  /** `\n` and `\r\n` line endings give the same track list. */
  lemma ParseCsvCrlf(text: string)
    ensures ParseCsv(ToCrlf(text)) == ParseCsv(text)
  {
    SplitToCrlf(text);
    var a := SplitLines(ToCrlf(text));
    var b := SplitLines(text);
    var ps := Split(text, '\n');
    forall i | 0 <= i < |a| ensures Trim(a[i]) == Trim(b[i]) {
      if i < |ps| - 1 {
        assert DropCr(ps[i] + "\r") == ps[i];
        TrimDropCr(ps[i]);
      }
    }
    CleanLinesTrimEq(a, b);
  }


  // ---- a header, a CRLF break, one row with an extra column, a final newline ----

  /** The pieces of `header\r\nrow\n`. */
  lemma HeaderRowSplit(h: string, row: string)
    requires '\n' !in h && '\n' !in row
    ensures Split(h + "\r\n" + row + "\n", '\n') == [h + "\r", row, ""]
  {
    var hr := h + "\r";
    assert '\n' !in hr;
    var tail := row + ['\n'] + [];
    SplitAround(row, '\n', []);
    SplitNoSep(row, '\n');
    SplitNoSep([], '\n');
    assert Split(tail, '\n') == [row, []];
    assert h + "\r\n" + row + "\n" == hr + ['\n'] + tail;
    SplitAround(hr, '\n', tail);
    SplitNoSep(hr, '\n');
  }

  /** The lines of `header\r\nrow\n`: the `\r` is dropped, the empty last piece kept. */
  lemma HeaderRowLines(h: string, row: string)
    requires '\n' !in h && '\n' !in row
    requires row == [] || row[|row| - 1] != '\r'
    ensures SplitLines(h + "\r\n" + row + "\n") == [h, row, ""]
  {
    HeaderRowSplit(h, row);
    var hr := h + "\r";
    assert hr[..|hr| - 1] == h;
    var r := SplitLines(h + "\r\n" + row + "\n");
    assert r[0] == h && r[1] == DropCr(row) && r[2] == "";
  }

  /**
   * A header line, a CRLF break and a single row `a,b` followed by a newline
   * give one track number: the text before the row's first comma, trimmed.
   */
  lemma ParseCsvHeaderRow(h: string, a: string, b: string)
    requires IsHeaderName(h) && IsTrimmed(h)
    requires '\n' !in h && '\n' !in a && '\n' !in b && ',' !in a
    requires IsTrimmed(a + "," + b)
    ensures ParseCsv(h + "\r\n" + (a + "," + b) + "\n") == [Trim(a)]
  {
    var row := a + "," + b;
    assert '\n' !in row;
    assert row[|a|] == ',';
    assert row[|row| - 1] != '\r' by { assert IsSpace('\r'); }
    HeaderRowLines(h, row);
    assert h != [] by { assert |ToLower(h)| == |h|; }
    HeaderRowClean(h, row);
    assert DataLines([h, row]) == [row];
    FirstFieldBeforeComma(a, b);
  }

  /** Cleaning keeps both trimmed lines and drops the empty last piece. */
  lemma HeaderRowClean(h: string, row: string)
    requires IsTrimmed(h) && IsTrimmed(row) && h != [] && row != []
    ensures CleanLines([h, row, ""]) == [h, row]
  {
    TrimOfTrimmed(h);
    TrimOfTrimmed(row);
    var ls := [h, row, ""];
    assert ls[1..] == [row, ""] && ls[1..][1..] == [""] && [""][1..] == [];
    assert CleanLines([""]) == [];
    assert CleanLines([row, ""]) == [row];
  }

  /** `t\r\nT1,x\n` names the one track `T1`. */
  lemma ParseCsvExample()
    ensures ParseCsv("t" + "\r\n" + ("T1" + "," + "x") + "\n") == ["T1"]
  {
    assert ToLower("t") == "t";
    assert IsTrimmed("T1" + "," + "x");
    TrimOfTrimmed("T1");
    ParseCsvHeaderRow("t", "T1", "x");
  }
}
