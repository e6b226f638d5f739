/** The dashboard's CSV reader `parseCSV` (docs/dashboard-script-cwm.js):
    split the text on line feeds, drop blank lines, split each line on the
    commas that lie outside double quotes, and build one object per data
    line keyed by the header names. JavaScript's numeric coercion
    (`isNaN` followed by `parseFloat`) and `parseInt` are parameters: the
    model fixes where they are applied, not how they read digits. */
module Csv {
  import opened Optional

  // ---------------------------------------------------------------------
  // Trimming

  /** White space as `String.prototype.trim` sees it: the ECMAScript
      WhiteSpace and LineTerminator characters. */
  predicate IsWhite(c: char)
  {
    || c == ' ' || c == '\t' || c == '\n' || c == '\U{000B}' || c == '\U{000C}' || c == '\r'
    || c == '\U{00A0}' || c == '\U{1680}' || ('\U{2000}' <= c <= '\U{200A}')
    || c == '\U{2028}' || c == '\U{2029}' || c == '\U{202F}' || c == '\U{205F}'
    || c == '\U{3000}' || c == '\U{FEFF}'
  }

  /** Neither end of `s` is white space. */
  predicate Trimmed(s: string)
  {
    |s| == 0 || (!IsWhite(s[0]) && !IsWhite(s[|s| - 1]))
  }

  /** Drop leading white space; what is kept does not start with it. */
  function TrimStart(s: string): (r: string)
    ensures |r| <= |s|
    ensures |r| > 0 ==> !IsWhite(r[0])
  {
    if |s| > 0 && IsWhite(s[0]) then TrimStart(s[1..]) else s
  }

  /** Drop trailing white space; what is kept does not end with it. */
  function TrimEnd(s: string): (r: string)
    ensures |r| <= |s|
    ensures |r| > 0 ==> !IsWhite(r[|r| - 1])
  {
    if |s| > 0 && IsWhite(s[|s| - 1]) then TrimEnd(s[..|s| - 1]) else s
  }

  /** `TrimStart` keeps a suffix and drops only white space. */
  lemma {:induction false} TrimStartSuffix(s: string)
    ensures TrimStart(s) == s[|s| - |TrimStart(s)|..]
    ensures forall i :: 0 <= i < |s| - |TrimStart(s)| ==> IsWhite(s[i])
  {
    if |s| > 0 && IsWhite(s[0]) {
      TrimStartSuffix(s[1..]);
      assert s[1..][|s| - 1 - |TrimStart(s)|..] == s[|s| - |TrimStart(s)|..];
    }
  }

  /** `TrimEnd` keeps a prefix and drops only white space. */
  lemma {:induction false} TrimEndPrefix(s: string)
    ensures TrimEnd(s) == s[..|TrimEnd(s)|]
    ensures forall i :: |TrimEnd(s)| <= i < |s| ==> IsWhite(s[i])
  {
    if |s| > 0 && IsWhite(s[|s| - 1]) {
      TrimEndPrefix(s[..|s| - 1]);
      assert s[..|s| - 1][..|TrimEnd(s)|] == s[..|TrimEnd(s)|];
    }
  }

  /** `s.trim()`: white space cut off both ends. */
  function Trim(s: string): (r: string)
    ensures Trimmed(r)
    ensures |r| <= |s|
  {
    var a := TrimStart(s);
    TrimEndPrefix(a);
    TrimEnd(a)
  }

  /** Trimming adds no character. */
  lemma TrimKeepsOut(s: string, c: char)
    requires c !in s
    ensures c !in Trim(s)
  {
    var a := TrimStart(s);
    TrimStartSuffix(s);
    assert c !in a;
    TrimEndPrefix(a);
  }

  /** Trimming changes exactly the strings with white space at an end. */
  lemma TrimIdentity(s: string)
    ensures Trim(s) == s <==> Trimmed(s)
  {
    if Trimmed(s) && |s| > 0 {
      assert TrimStart(s) == s;
      assert TrimEnd(s) == s;
    }
  }

  // ---------------------------------------------------------------------
  // Splitting lines

  /** `parts.join(sep)`. */
  function Join(parts: seq<string>, sep: char): string
  {
    if |parts| == 0 then ""
    else if |parts| == 1 then parts[0]
    else parts[0] + [sep] + Join(parts[1..], sep)
  }

  /** `s.split(sep)` for a one-character separator. */
  function SplitOn(s: string, sep: char): (parts: seq<string>)
    ensures |parts| > 0
  {
    if |s| == 0 then [""]
    else
      var rest := SplitOn(s[1..], sep);
      if s[0] == sep then [""] + rest
      else [[s[0]] + rest[0]] + rest[1..]
  }

  /** No part holds the separator, and joining the parts gives `s` back. */
  lemma {:induction false} JoinSplit(s: string, sep: char)
    ensures forall i :: 0 <= i < |SplitOn(s, sep)| ==> sep !in SplitOn(s, sep)[i]
    ensures Join(SplitOn(s, sep), sep) == s
  {
    if |s| > 0 {
      var rest := SplitOn(s[1..], sep);
      JoinSplit(s[1..], sep);
      if s[0] == sep {
        assert Join([""] + rest, sep) == [sep] + Join(rest, sep);
      } else {
        var parts := [[s[0]] + rest[0]] + rest[1..];
        assert parts[1..] == rest[1..];
        assert s == [s[0]] + s[1..];
      }
    }
  }

  /** A separator-free prefix joins the first part. */
  lemma {:induction false} SplitFirst(a: string, b: string, sep: char)
    requires sep !in a
    ensures var p := SplitOn(b, sep); SplitOn(a + b, sep) == [a + p[0]] + p[1..]
    decreases |a|
  {
    var p := SplitOn(b, sep);
    if |a| > 0 {
      SplitFirst(a[1..], b, sep);
      assert (a + b)[1..] == a[1..] + b;
      assert (a + b)[0] == a[0];
      assert [a[0]] + (a[1..] + p[0]) == a + p[0];
    } else {
      assert a + b == b;
      assert a + p[0] == p[0];
      assert p == [p[0]] + p[1..];
    }
  }

  /** Splitting a join of separator-free parts gives the parts back. */
  lemma {:induction false} SplitJoin(parts: seq<string>, sep: char)
    requires |parts| > 0
    requires forall i :: 0 <= i < |parts| ==> sep !in parts[i]
    ensures SplitOn(Join(parts, sep), sep) == parts
  {
    if |parts| == 1 {
      SplitFirst(parts[0], "", sep);
      assert Join(parts, sep) == parts[0] + "";
      assert SplitOn("", sep) == [""];
      assert parts[0] + "" == parts[0];
    } else {
      var tail := Join(parts[1..], sep);
      SplitJoin(parts[1..], sep);
      SplitFirst(parts[0], [sep] + tail, sep);
      assert Join(parts, sep) == parts[0] + ([sep] + tail);
      assert ([sep] + tail)[1..] == tail;
      assert SplitOn([sep] + tail, sep) == [""] + parts[1..];
      assert parts[0] + "" == parts[0];
      assert parts == [parts[0]] + parts[1..];
    }
  }

  /** The entries of `ls` that are not blank once trimmed, in order. */
  function KeepNonBlank(ls: seq<string>): (r: seq<string>)
    ensures |r| <= |ls|
    ensures forall i :: 0 <= i < |r| ==> Trim(r[i]) != ""
  {
    if |ls| == 0 then []
    else (if Trim(ls[0]) != "" then [ls[0]] else []) + KeepNonBlank(ls[1..])
  }

  /** Every kept line occurs in `ls`, and every non-blank line of `ls` is
      kept. */
  lemma {:induction false} KeepNonBlankMembers(ls: seq<string>)
    ensures forall x :: x in KeepNonBlank(ls) ==> x in ls
    ensures forall x :: x in ls && Trim(x) != "" ==> x in KeepNonBlank(ls)
  {
    if |ls| > 0 {
      KeepNonBlankMembers(ls[1..]);
      assert forall x :: x in ls <==> x == ls[0] || x in ls[1..];
    }
  }

  /** Filtering a concatenation concatenates the parts' kept lines: with `KeepNonBlankOne`, the kept lines stay in order. */
  lemma {:induction false} KeepNonBlankAppend(a: seq<string>, b: seq<string>)
    ensures KeepNonBlank(a + b) == KeepNonBlank(a) + KeepNonBlank(b)
  {
    if |a| == 0 {
      assert a + b == b;
    } else {
      var head := if Trim(a[0]) != "" then [a[0]] else [];
      calc {
        KeepNonBlank(a + b);
      == { assert (a + b)[0] == a[0] && (a + b)[1..] == a[1..] + b; }
        head + KeepNonBlank(a[1..] + b);
      == { KeepNonBlankAppend(a[1..], b); }
        head + (KeepNonBlank(a[1..]) + KeepNonBlank(b));
      ==
        (head + KeepNonBlank(a[1..])) + KeepNonBlank(b);
      }
    }
  }

  /** A single line is kept when it is not blank. */
  lemma KeepNonBlankOne(l: string)
    ensures KeepNonBlank([l]) == if Trim(l) != "" then [l] else []
  {
  }

  /** Each non-blank line is kept as often as it occurs; no blank line is kept. */
  lemma {:induction false} KeepNonBlankCounts(s: seq<string>)
    ensures forall l ::
      multiset(KeepNonBlank(s))[l] == if Trim(l) != "" then multiset(s)[l] else 0
  {
    if |s| > 0 {
      KeepNonBlankCounts(s[1..]);
      assert s == [s[0]] + s[1..];
    }
  }

  /** `csvText.split('\n').filter(line => line.trim())`. */
  function NonBlankLines(text: string): (lines: seq<string>)
    ensures forall i :: 0 <= i < |lines| ==> Trim(lines[i]) != ""
  {
    KeepNonBlank(SplitOn(text, '\n'))
  }

  /** No kept line holds a line feed. */
  lemma NonBlankLinesSingle(text: string)
    ensures forall l :: l in NonBlankLines(text) ==> '\n' !in l
  {
    KeepNonBlankMembers(SplitOn(text, '\n'));
    JoinSplit(text, '\n');
  }

  // ---------------------------------------------------------------------
  // Splitting a line into fields

  /** `s.replace(/^"|"$/g, '')`: drop one leading and one trailing double
      quote (a lone quote is both, and is dropped once). */
  function StripQuotes(s: string): (r: string)
    ensures '"' !in s ==> r == s
    ensures |r| <= |s|
  {
    var a := if |s| > 0 && s[0] == '"' then s[1..] else s;
    if |a| > 0 && a[|a| - 1] == '"' then a[..|a| - 1] else a
  }

  /** What is pushed for a finished field: trimmed, then unquoted. */
  function Clean(cur: string): string
  {
    StripQuotes(Trim(cur))
  }

  /** The commas of `s` that lie outside quotes, when a quote is already
      open at the start exactly if `inQ`. */
  function UnquotedCommas(s: string, inQ: bool): nat
    decreases |s|
  {
    if |s| == 0 then 0
    else if s[0] == '"' then UnquotedCommas(s[1..], !inQ)
    else (if s[0] == ',' && !inQ then 1 else 0) + UnquotedCommas(s[1..], inQ)
  }

  /** The quote-aware splitter loop of `parseCSV` from some point on: `cur`
      is the field being built and `inQ` whether a quote is open. A quote
      character toggles `inQ` and is never copied; a comma outside quotes
      ends the field; the end of the line ends the last field. There is
      one field more than there are unquoted commas. */
  function FieldsFrom(s: string, cur: string, inQ: bool): (fs: seq<string>)
    ensures |fs| == UnquotedCommas(s, inQ) + 1
    decreases |s|
  {
    if |s| == 0 then [Clean(cur)]
    else if s[0] == '"' then FieldsFrom(s[1..], cur, !inQ)
    else if s[0] == ',' && !inQ then [Clean(cur)] + FieldsFrom(s[1..], "", inQ)
    else FieldsFrom(s[1..], cur + [s[0]], inQ)
  }

  /** The fields of one line. */
  function SplitFields(line: string): (fs: seq<string>)
    ensures |fs| == UnquotedCommas(line, false) + 1
  {
    FieldsFrom(line, "", false)
  }

  /** A field as the splitter emits it: no quote, no white space at an end. */
  predicate CleanField(f: string)
  {
    '"' !in f && Trimmed(f)
  }

  /** A field built without quotes comes out clean. */
  lemma CleanIsClean(cur: string)
    requires '"' !in cur
    ensures CleanField(Clean(cur))
  {
    TrimKeepsOut(cur, '"');
  }

  /** Quotes are never copied into a field, and every field is trimmed. */
  lemma {:induction false} FieldsFromClean(s: string, cur: string, inQ: bool, i: nat)
    requires '"' !in cur
    requires i < |FieldsFrom(s, cur, inQ)|
    ensures CleanField(FieldsFrom(s, cur, inQ)[i])
    decreases |s|
  {
    if |s| == 0 {
      CleanIsClean(cur);
    } else if s[0] == '"' {
      FieldsFromClean(s[1..], cur, !inQ, i);
    } else if s[0] == ',' && !inQ {
      if i == 0 {
        CleanIsClean(cur);
      } else {
        FieldsFromClean(s[1..], "", inQ, i - 1);
      }
    } else {
      FieldsFromClean(s[1..], cur + [s[0]], inQ, i);
    }
  }

  /** No field of a line holds a quote or white space at an end. */
  lemma SplitFieldsClean(line: string)
    ensures var fs := SplitFields(line);
      forall i :: 0 <= i < |fs| ==> CleanField(fs[i])
  {
    var fs := SplitFields(line);
    forall i | 0 <= i < |fs| ensures CleanField(fs[i]) {
      FieldsFromClean(line, "", false, i);
    }
  }

  /** A field that survives a write-then-read unchanged: no comma, no
      quote, no white space at either end. */
  predicate PlainField(f: string)
  {
    ',' !in f && '"' !in f && Trimmed(f)
  }

  /** A quote-free stretch is copied into the current field, commas
      included when a quote is open. */
  lemma {:induction false} FieldsCopy(a: string, rest: string, cur: string, inQ: bool)
    requires '"' !in a && (!inQ ==> ',' !in a)
    ensures FieldsFrom(a + rest, cur, inQ) == FieldsFrom(rest, cur + a, inQ)
    decreases |a|
  {
    if |a| > 0 {
      assert (a + rest)[0] == a[0];
      assert (a + rest)[1..] == a[1..] + rest;
      assert cur + [a[0]] + a[1..] == cur + a;
      FieldsCopy(a[1..], rest, cur + [a[0]], inQ);
    } else {
      assert a + rest == rest;
      assert cur + a == cur;
    }
  }

  /** A plain field is its own cleaned form. */
  lemma CleanPlain(f: string)
    requires PlainField(f)
    ensures Clean(f) == f
  {
    TrimIdentity(f);
  }

  /** A plain field alone on a line reads back as itself. */
  lemma PlainFieldAlone(f: string)
    requires PlainField(f)
    ensures FieldsFrom(f, "", false) == [f]
  {
    FieldsCopy(f, "", "", false);
    assert f + "" == f;
    assert "" + f == f;
    CleanPlain(f);
  }

  /** A plain field followed by a comma ends there. */
  lemma PlainFieldThenComma(f: string, tail: string)
    requires PlainField(f)
    ensures FieldsFrom(f + ([','] + tail), "", false) == [f] + FieldsFrom(tail, "", false)
  {
    FieldsCopy(f, [','] + tail, "", false);
    assert "" + f == f;
    assert ([','] + tail)[1..] == tail;
    CleanPlain(f);
  }

  /** Plain fields joined with commas split back into the same fields. */
  lemma {:induction false} FieldsRoundTrip(fs: seq<string>)
    requires |fs| > 0
    requires forall i :: 0 <= i < |fs| ==> PlainField(fs[i])
    ensures SplitFields(Join(fs, ',')) == fs
  {
    if |fs| == 1 {
      PlainFieldAlone(fs[0]);
    } else {
      var tail := Join(fs[1..], ',');
      assert Join(fs, ',') == fs[0] + ([','] + tail);
      PlainFieldThenComma(fs[0], tail);
      FieldsRoundTrip(fs[1..]);
      assert fs == [fs[0]] + fs[1..];
    }
  }

  /** After a closing quote, a comma ends the quoted field. */
  lemma CloseQuoteThenComma(ab: string, c: string)
    ensures FieldsFrom(['"', ','] + c, ab, true) == [Clean(ab)] + FieldsFrom(c, "", false)
  {
    var r1 := ['"', ','] + c;
    var r2 := [','] + c;
    assert r1[0] == '"' && r1[1..] == r2;
    assert r2[0] == ',' && r2[1..] == c;
  }

  /** Two plain fields around a comma form a clean field. */
  lemma CleanAroundComma(a: string, b: string)
    requires PlainField(a) && PlainField(b)
    ensures Clean(a + [','] + b) == a + [','] + b
  {
    var ab := a + [','] + b;
    assert Trimmed(ab);
    TrimIdentity(ab);
  }

  /** An opening quote starts a quoted stretch. */
  lemma OpenQuote(ab: string, rest: string)
    ensures SplitFields(['"'] + (ab + rest)) == FieldsFrom(ab + rest, "", true)
  {
    var line := ['"'] + (ab + rest);
    assert line[0] == '"' && line[1..] == ab + rest;
  }

  /** A comma inside quotes stays in its field and the quotes go:
      `"a,b",c` reads as the two fields `a,b` and `c`. */
  lemma QuotedComma(a: string, b: string, c: string)
    requires PlainField(a) && PlainField(b) && PlainField(c)
    ensures SplitFields(['"'] + a + [','] + b + ['"', ','] + c) == [a + [','] + b, c]
  {
    var ab := a + [','] + b;
    var rest := ['"', ','] + c;
    assert ['"'] + a + [','] + b + ['"', ','] + c == ['"'] + (ab + rest);
    calc {
      SplitFields(['"'] + (ab + rest));
    == { OpenQuote(ab, rest); }
      FieldsFrom(ab + rest, "", true);
    == { FieldsCopy(ab, rest, "", true); assert "" + ab == ab; }
      FieldsFrom(rest, ab, true);
    == { CloseQuoteThenComma(ab, c); }
      [Clean(ab)] + FieldsFrom(c, "", false);
    == { PlainFieldAlone(c); CleanAroundComma(a, b); }
      [ab, c];
    }
  }

  // ---------------------------------------------------------------------
  // Building the row objects

  /** A parsed value: a number, a string, or the number NaN (only
      `parseInt` can produce it here). */
  datatype Cell = Num(x: real) | Text(s: string) | NotANumber

  /** A parsed row: property name to value. */
  type Obj = map<string, Cell>

  /** `values[idx] || ''`. */
  function ValueAt(values: seq<string>, idx: nat): string
  {
    if idx < |values| then values[idx] else ""
  }

  /** `(val && !isNaN(val) && val !== '') ? parseFloat(val) : val`, where
      `toNumber(val)` is `None` exactly when `isNaN(val)` holds and gives
      `parseFloat(val)` otherwise. A text cell is empty or not numeric. */
  function Coerce(val: string, toNumber: string -> Option<real>): (c: Cell)
    ensures c.Text? ==> c.s == val && (val == "" || toNumber(val).None?)
    ensures c.Num? ==> val != "" && toNumber(val) == Some(c.x)
    ensures !c.NotANumber?
  {
    if val != "" && toNumber(val).Some? then Num(toNumber(val).value) else Text(val)
  }

  /** The `headers.forEach` loop: each header in turn is set to the
      coerced value in the same position. Its keys are the headers. */
  function Fill(headers: seq<string>, values: seq<string>, toNumber: string -> Option<real>): (obj: Obj)
    ensures forall k :: k in obj <==> k in headers
    decreases |headers|
  {
    if |headers| == 0 then map[]
    else
      var n := |headers| - 1;
      assert forall k :: k in headers <==> k in headers[..n] || k == headers[n];
      Fill(headers[..n], values, toNumber)[headers[n] := Coerce(ValueAt(values, n), toNumber)]
  }

  /** The header at the last position holding a name. */
  predicate LastOf(headers: seq<string>, j: nat)
  {
    j < |headers| && forall m :: j < m < |headers| ==> headers[m] != headers[j]
  }

  /** A repeated header keeps the value at its last position. */
  lemma {:induction false} FillLastWins(headers: seq<string>, values: seq<string>,
                                        toNumber: string -> Option<real>, j: nat)
    requires LastOf(headers, j)
    ensures Fill(headers, values, toNumber)[headers[j]] == Coerce(ValueAt(values, j), toNumber)
    decreases |headers|
  {
    var n := |headers| - 1;
    if j < n {
      assert LastOf(headers[..n], j);
      FillLastWins(headers[..n], values, toNumber, j);
    }
  }

  /** Every value `Fill` stores is empty text, non-numeric text or a
      number. */
  lemma {:induction false} FillCells(headers: seq<string>, values: seq<string>,
                                     toNumber: string -> Option<real>, k: string)
    requires k in Fill(headers, values, toNumber)
    ensures var c := Fill(headers, values, toNumber)[k];
      !c.NotANumber? && (c.Text? ==> c.s == "" || toNumber(c.s).None?)
    decreases |headers|
  {
    var n := |headers| - 1;
    if k != headers[n] {
      FillCells(headers[..n], values, toNumber, k);
    }
  }

  /** The first four characters, `s.substring(0, 4)`. */
  function Prefix4(s: string): (r: string)
    ensures |r| == if |s| < 4 then |s| else 4
    ensures r == s[..|r|]
  {
    if |s| < 4 then s else s[..4]
  }

  /** The `year` a non-empty `release_date` string gives: `parseInt` of its
      first four characters, NaN when that fails. */
  function YearCell(date: string, parseInt: string -> Option<int>): (c: Cell)
    ensures c.Num? <==> parseInt(Prefix4(date)).Some?
    ensures c.Num? ==> c.x == parseInt(Prefix4(date)).value as real
    ensures !c.Text?
  {
    var y := parseInt(Prefix4(date));
    if y.Some? then Num(y.value as real) else NotANumber
  }

  /** Whether a filled row gets a `year`: its `release_date` holds a
      non-empty string. */
  predicate HasDate(base: Obj)
  {
    "release_date" in base && base["release_date"].Text? && base["release_date"].s != ""
  }

  /** One row object: the headers mapped to the row's values, then, when
      `release_date` holds a non-empty string, `year` set from it. The
      keys are the headers, plus `year` only when a `release_date` header
      exists. */
  function BuildRow(headers: seq<string>, values: seq<string>,
                    toNumber: string -> Option<real>, parseInt: string -> Option<int>): (obj: Obj)
    ensures forall k :: k in headers ==> k in obj
    ensures forall k :: k in obj ==> k in headers || k == "year"
    ensures "year" in obj && "year" !in headers ==> "release_date" in headers
  {
    var base := Fill(headers, values, toNumber);
    if HasDate(base) then base["year" := YearCell(base["release_date"].s, parseInt)] else base
  }

  /** A header other than `year` holds the value in its last position. */
  lemma BuildRowCell(headers: seq<string>, values: seq<string>,
                     toNumber: string -> Option<real>, parseInt: string -> Option<int>, j: nat)
    requires LastOf(headers, j) && headers[j] != "year"
    ensures BuildRow(headers, values, toNumber, parseInt)[headers[j]] == Coerce(ValueAt(values, j), toNumber)
  {
    FillLastWins(headers, values, toNumber, j);
  }

  /** A header past the end of a short line gets the empty string. */
  lemma MissingFieldIsBlank(headers: seq<string>, values: seq<string>,
                            toNumber: string -> Option<real>, parseInt: string -> Option<int>, j: nat)
    requires LastOf(headers, j) && headers[j] != "year" && j >= |values|
    ensures BuildRow(headers, values, toNumber, parseInt)[headers[j]] == Text("")
  {
    BuildRowCell(headers, values, toNumber, parseInt, j);
  }

  /** Where `year` comes from: with a `release_date` header and no `year`
      header, a row gets a `year` exactly when its date is a non-empty,
      non-numeric string, and then it is read from the date's first four
      characters. A date that is a bare number such as `1999` is coerced
      to a number first and gives no `year`. */
  lemma BuildRowYear(headers: seq<string>, values: seq<string>,
                     toNumber: string -> Option<real>, parseInt: string -> Option<int>, j: nat)
    requires LastOf(headers, j) && headers[j] == "release_date" && "year" !in headers
    ensures var date := ValueAt(values, j); var row := BuildRow(headers, values, toNumber, parseInt);
      ("year" in row <==> date != "" && toNumber(date).None?)
      && ("year" in row ==> row["year"] == YearCell(date, parseInt))
  {
    FillLastWins(headers, values, toNumber, j);
  }

  /** With both a `release_date` and a `year` header, a non-empty,
      non-numeric date overwrites the `year` column with the value read
      from its first four characters; any other date leaves the `year`
      column's own coerced value. */
  lemma BuildRowYearColumn(headers: seq<string>, values: seq<string>,
                           toNumber: string -> Option<real>, parseInt: string -> Option<int>, j: nat, i: nat)
    requires LastOf(headers, j) && headers[j] == "release_date"
    requires LastOf(headers, i) && headers[i] == "year"
    ensures var date := ValueAt(values, j); var row := BuildRow(headers, values, toNumber, parseInt);
      "year" in row
      && row["year"] == if date != "" && toNumber(date).None? then YearCell(date, parseInt)
                        else Coerce(ValueAt(values, i), toNumber)
  {
    FillLastWins(headers, values, toNumber, j);
    FillLastWins(headers, values, toNumber, i);
  }

  /** No text cell of a parsed row looks like a number: every string the
      parser keeps is empty or fails `isNaN`. The dashboard's filters rely
      on this to tell numbers from text. */
  lemma TextCellsNotNumeric(headers: seq<string>, values: seq<string>,
                            toNumber: string -> Option<real>, parseInt: string -> Option<int>, k: string)
    requires k in BuildRow(headers, values, toNumber, parseInt)
    ensures var c := BuildRow(headers, values, toNumber, parseInt)[k];
      c.Text? ==> c.s == "" || toNumber(c.s).None?
  {
    var base := Fill(headers, values, toNumber);
    if k in base && !(HasDate(base) && k == "year") {
      FillCells(headers, values, toNumber, k);
    }
  }

  /** `parseCSV(csvText)`: no rows unless there is a header line and at
      least one data line; otherwise one object per non-blank data line,
      in order, built from the header line's fields. */
  function ParseCsv(text: string, toNumber: string -> Option<real>, parseInt: string -> Option<int>): (rows: seq<Obj>)
    ensures |NonBlankLines(text)| < 2 ==> rows == []
    ensures |NonBlankLines(text)| >= 2 ==> |rows| == |NonBlankLines(text)| - 1
  {
    var lines := NonBlankLines(text);
    if |lines| < 2 then []
    else
      DataRows(LineRow(SplitFields(lines[0]), toNumber, parseInt), lines, 1)
  }

  /** The object a data line yields under `headers`. */
  function LineRow(headers: seq<string>, toNumber: string -> Option<real>, parseInt: string -> Option<int>): string -> Obj
  {
    line => BuildRow(headers, SplitFields(line), toNumber, parseInt)
  }

  /** One object per line from position `from` on, each built from its own
      line by `build`. */
  function DataRows(build: string -> Obj, lines: seq<string>, from: nat): (rows: seq<Obj>)
    requires from <= |lines|
    ensures |rows| == |lines| - from
    decreases |lines| - from
  {
    if from == |lines| then [] else [build(lines[from])] + DataRows(build, lines, from + 1)
  }

  /** Object `k` from position `from` on is built from line `from + k`. */
  lemma {:induction false} DataRowAt(build: string -> Obj, lines: seq<string>, from: nat, k: nat)
    requires from + k < |lines|
    ensures DataRows(build, lines, from)[k] == build(lines[k + from])
    decreases k
  {
    if k > 0 {
      DataRowAt(build, lines, from + 1, k - 1);
    }
  }

  /** Each row is built from its own data line. */
  lemma ParseCsvRow(text: string, toNumber: string -> Option<real>, parseInt: string -> Option<int>, i: nat)
    requires i + 1 < |NonBlankLines(text)|
    ensures var lines := NonBlankLines(text);
      ParseCsv(text, toNumber, parseInt)[i] == BuildRow(SplitFields(lines[0]), SplitFields(lines[i + 1]), toNumber, parseInt)
  {
    var lines := NonBlankLines(text);
    DataLine(SplitFields(lines[0]), lines, toNumber, parseInt, i);
  }

  /** Data object `i` is built from line `i + 1`. */
  lemma DataLine(headers: seq<string>, lines: seq<string>,
                 toNumber: string -> Option<real>, parseInt: string -> Option<int>, i: nat)
    requires i + 1 < |lines|
    ensures DataRows(LineRow(headers, toNumber, parseInt), lines, 1)[i]
      == BuildRow(headers, SplitFields(lines[i + 1]), toNumber, parseInt)
  {
    DataRowAt(LineRow(headers, toNumber, parseInt), lines, 1, i);
    LineRowApply(headers, toNumber, parseInt, lines[i + 1]);
  }

  lemma LineRowApply(headers: seq<string>, toNumber: string -> Option<real>, parseInt: string -> Option<int>, line: string)
    ensures LineRow(headers, toNumber, parseInt)(line) == BuildRow(headers, SplitFields(line), toNumber, parseInt)
  {
  }

  /** Field `j` of data line `i + 1` lands under header `j`, when no later
      header repeats that name and the name is not `year`. */
  lemma ParseCsvCell(text: string, toNumber: string -> Option<real>, parseInt: string -> Option<int>, i: nat, j: nat)
    requires i + 1 < |NonBlankLines(text)|
    requires var headers := SplitFields(NonBlankLines(text)[0]); LastOf(headers, j) && headers[j] != "year"
    ensures var lines := NonBlankLines(text);
      var headers := SplitFields(lines[0]);
      var row := ParseCsv(text, toNumber, parseInt)[i];
      headers[j] in row && row[headers[j]] == Coerce(ValueAt(SplitFields(lines[i + 1]), j), toNumber)
  {
    var lines := NonBlankLines(text);
    ParseCsvRow(text, toNumber, parseInt, i);
    BuildRowCell(SplitFields(lines[0]), SplitFields(lines[i + 1]), toNumber, parseInt, j);
  }
}
