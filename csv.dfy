/**
 * The CSV export of the wallet grid: one header line and one line per
 * wallet, each a comma-joined list of three fields escaped after RFC 4180,
 * section 2, rules 6 and 7. `ParseRecord` is an RFC 4180 reader of one
 * line; the lemmas show that it reads every written line back into the
 * original fields.
 */
module Csv {
  import opened Wrappers

  /** Whether a field must be enclosed in double quotes: it holds a comma, a quote, LF or CR. */
  predicate NeedsQuote(s: string)
  {
    ',' in s || '"' in s || '\n' in s || '\r' in s
  }

  /** The number of double quotes in `s`. */
  function QuoteCount(s: string): nat
  {
    if s == [] then 0 else (if s[0] == '"' then 1 else 0) + QuoteCount(s[1..])
  }

  /** `s` with every double quote replaced by two. */
  function DoubleQuotes(s: string): string
  {
    if s == [] then []
    else (if s[0] == '"' then "\"\"" else [s[0]]) + DoubleQuotes(s[1..])
  }

  /** Collapses each pair of double quotes into one: the inverse of DoubleQuotes. */
  function CollapseQuotes(s: string): string
  {
    if |s| >= 2 && s[0] == '"' && s[1] == '"' then "\"" + CollapseQuotes(s[2..])
    else if s == [] then []
    else [s[0]] + CollapseQuotes(s[1..])
  }

  /**
   * Escapes one field: null becomes the empty field, a field that needs no
   * quoting is kept as it is, any other is enclosed in quotes with its own
   * quotes doubled.
   */
  function EscapeCsv(input: Option<string>): (r: string)
    ensures input.None? ==> r == ""
    ensures input.Some? && !NeedsQuote(input.value) ==> r == input.value
    ensures input.Some? && NeedsQuote(input.value) ==> |r| >= 2 && r[0] == '"' && r[|r| - 1] == '"'
  {
    match input
    case None => ""
    case Some(s) => if NeedsQuote(s) then "\"" + DoubleQuotes(s) + "\"" else s
  }

  /** A grid cell's text: Convert.ToString gives the empty string for a null value. */
  function CellText(value: Option<string>): string
  {
    match value
    case None => ""
    case Some(s) => s
  }

  /** The three column names: chain type, private key (hex), receiving address. */
  const ChainColumn: string := "\U{94fe}\U{7c7b}\U{578b}"
  const KeyColumn: string := "\U{79c1}\U{94a5}(HEX)"
  const AddressColumn: string := "\U{6536}\U{6b3e}\U{5730}\U{5740}"

  /** The first line of the file: the column names joined by commas. */
  function Header(): (h: string)
    ensures h == "\U{94fe}\U{7c7b}\U{578b},\U{79c1}\U{94a5}(HEX),\U{6536}\U{6b3e}\U{5730}\U{5740}"
  {
    ChainColumn + ("," + (KeyColumn + ("," + AddressColumn)))
  }

  /** One data line: the escaped chain, private key and address cells joined by commas. */
  function FormatRow(chain: Option<string>, priv: Option<string>, addr: Option<string>): string
  {
    EscapeCsv(Some(CellText(chain))) + ("," + (EscapeCsv(Some(CellText(priv))) + ("," + EscapeCsv(Some(CellText(addr))))))
  }

  // ---------------------------------------------------------------------------
  // An RFC 4180 reader for one line

  /** The rest of a quoted field after its opening quote: its text and what follows the closing quote. */
  function ParseQuotedBody(s: string): (r: Option<(string, string)>)
    ensures r.Some? ==> |r.value.1| < |s|
  {
    if s == [] then None
    else if s[0] == '"' then
      if |s| >= 2 && s[1] == '"' then
        match ParseQuotedBody(s[2..])
        case None => None
        case Some((f, rest)) => Some(("\"" + f, rest))
      else Some(([], s[1..]))
    else
      match ParseQuotedBody(s[1..])
      case None => None
      case Some((f, rest)) => Some(([s[0]] + f, rest))
  }

  /** An unquoted field runs to the next comma or line break and may not hold a quote. */
  function ParseUnquoted(s: string): (r: Option<(string, string)>)
    ensures r.Some? ==> |r.value.1| <= |s|
  {
    if s == [] || s[0] == ',' || s[0] == '\r' || s[0] == '\n' then Some(([], s))
    else if s[0] == '"' then None
    else
      match ParseUnquoted(s[1..])
      case None => None
      case Some((f, rest)) => Some(([s[0]] + f, rest))
  }

  function ParseField(s: string): (r: Option<(string, string)>)
    ensures r.Some? ==> |r.value.1| <= |s|
  {
    if s != [] && s[0] == '"' then ParseQuotedBody(s[1..]) else ParseUnquoted(s)
  }

  /** The fields of one line, or None when the line is not well-formed CSV. */
  function ParseRecord(s: string): Option<seq<string>>
    decreases |s|
  {
    match ParseField(s)
    case None => None
    case Some((f, rest)) =>
      if rest == [] then Some([f])
      else if rest[0] != ',' then None
      else
        match ParseRecord(rest[1..])
        case None => None
        case Some(fs) => Some([f] + fs)
  }

  // ---------------------------------------------------------------------------
  // Lemmas

  /**
   * A quoted field is two characters longer than its text plus one per
   * quote in it, and stripping the outer quotes and collapsing the doubled
   * ones gives the text back.
   */
  lemma QuotedField(s: string)
    requires NeedsQuote(s)
    ensures var r := EscapeCsv(Some(s));
      |r| == |s| + 2 + QuoteCount(s) && CollapseQuotes(r[1..|r| - 1]) == s
  {
    var r := EscapeCsv(Some(s));
    assert r[1..|r| - 1] == DoubleQuotes(s);
    DoubleQuotesLength(s);
    CollapseDoubleQuotes(s);
  }

  /** Doubling adds one character per quote. */
  lemma {:induction false} DoubleQuotesLength(s: string)
    ensures |DoubleQuotes(s)| == |s| + QuoteCount(s)
  {
    if s != [] {
      DoubleQuotesLength(s[1..]);
    }
  }

  /** Collapsing doubled quotes undoes the doubling. */
  lemma {:induction false} CollapseDoubleQuotes(s: string)
    ensures CollapseQuotes(DoubleQuotes(s)) == s
  {
    if s != [] {
      CollapseDoubleQuotes(s[1..]);
      var t := DoubleQuotes(s);
      if s[0] == '"' {
        assert t == "\"\"" + DoubleQuotes(s[1..]);
        assert t[2..] == DoubleQuotes(s[1..]);
      } else {
        assert t == [s[0]] + DoubleQuotes(s[1..]);
        assert t[1..] == DoubleQuotes(s[1..]);
      }
      assert s == [s[0]] + s[1..];
    }
  }

  /** The body of a quoted field, with its quotes doubled and a closing quote, reads back to the text. */
  lemma {:induction false} QuotedRoundTrip(s: string, rest: string)
    requires rest == [] || rest[0] != '"'
    ensures ParseQuotedBody(DoubleQuotes(s) + "\"" + rest) == Some((s, rest))
  {
    if s == [] {
      QuotedEnd(rest);
      assert DoubleQuotes(s) + "\"" + rest == "\"" + rest;
    } else {
      QuotedRoundTrip(s[1..], rest);
      QuotedStep(s, rest, s[1..], rest);
      assert [s[0]] + s[1..] == s;
    }
  }

  /** A single quote not followed by another closes the field. */
  lemma QuotedEnd(rest: string)
    requires rest == [] || rest[0] != '"'
    ensures ParseQuotedBody("\"" + rest) == Some(([], rest))
  {
    assert ("\"" + rest)[1..] == rest;
  }

  /** The first character of a doubled text reads back first. */
  lemma QuotedStep(s: string, rest: string, f: string, r: string)
    requires s != []
    requires ParseQuotedBody(DoubleQuotes(s[1..]) + "\"" + rest) == Some((f, r))
    ensures ParseQuotedBody(DoubleQuotes(s) + "\"" + rest) == Some(([s[0]] + f, r))
  {
    var d := DoubleQuotes(s[1..]);
    var u := d + "\"" + rest;
    var head := if s[0] == '"' then "\"\"" else [s[0]];
    assert DoubleQuotes(s) == head + d;
    Regroup(head, d, "\"" + rest);
    assert DoubleQuotes(s) + "\"" + rest == head + u;
    if s[0] == '"' {
      QuotedBodyQuote(u, f, r);
    } else {
      QuotedBodyPlain(s[0], u, f, r);
    }
  }

  lemma Regroup(a: string, b: string, c: string)
    ensures (a + b) + c == a + (b + c)
  {
  }

  /** Inside a quoted field, two quotes stand for one. */
  lemma QuotedBodyQuote(u: string, f: string, r: string)
    requires ParseQuotedBody(u) == Some((f, r))
    ensures ParseQuotedBody("\"\"" + u) == Some(("\"" + f, r))
  {
    var t := "\"\"" + u;
    assert t[2..] == u;
  }

  /** Inside a quoted field, any other character stands for itself. */
  lemma QuotedBodyPlain(c: char, u: string, f: string, r: string)
    requires c != '"'
    requires ParseQuotedBody(u) == Some((f, r))
    ensures ParseQuotedBody([c] + u) == Some(([c] + f, r))
  {
    var t := [c] + u;
    assert t[1..] == u;
  }

  /** A field that needs no quoting reads back as itself when a comma or the end of the line follows. */
  lemma {:induction false} UnquotedRoundTrip(s: string, rest: string)
    requires !NeedsQuote(s)
    requires rest == [] || rest[0] == ','
    ensures ParseUnquoted(s + rest) == Some((s, rest))
  {
    if s == [] {
      assert s + rest == rest;
    } else {
      var t := s + rest;
      assert s[0] in s;
      assert t[0] == s[0];
      assert !NeedsQuote(s[1..]) by {
        forall c | c in s[1..] ensures c in s {
        }
      }
      UnquotedRoundTrip(s[1..], rest);
      assert t[1..] == s[1..] + rest;
      assert s == [s[0]] + s[1..];
    }
  }

  /** Every escaped field reads back as the original text, whatever it holds. */
  lemma FieldRoundTrip(s: string, rest: string)
    requires rest == [] || rest[0] == ','
    ensures ParseField(EscapeCsv(Some(s)) + rest) == Some((s, rest))
  {
    if NeedsQuote(s) {
      QuotedFieldRoundTrip(s, rest);
    } else {
      PlainFieldRoundTrip(s, rest);
    }
  }

  lemma QuotedFieldRoundTrip(s: string, rest: string)
    requires NeedsQuote(s)
    requires rest == [] || rest[0] == ','
    ensures ParseField(EscapeCsv(Some(s)) + rest) == Some((s, rest))
  {
    var d := DoubleQuotes(s);
    QuotedRoundTrip(s, rest);
    OpeningQuote(d, rest);
  }

  lemma OpeningQuote(d: string, rest: string)
    ensures ("\"" + d + "\"" + rest)[0] == '"'
    ensures ("\"" + d + "\"" + rest)[1..] == d + "\"" + rest
  {
  }

  lemma PlainFieldRoundTrip(s: string, rest: string)
    requires !NeedsQuote(s)
    requires rest == [] || rest[0] == ','
    ensures ParseField(EscapeCsv(Some(s)) + rest) == Some((s, rest))
  {
    UnquotedRoundTrip(s, rest);
    if s != [] {
      assert s[0] in s;
    }
  }

  /**
   * A data line reads back as exactly three fields, the cells' texts: a
   * comma inside a cell never splits it, because it sits within quotes.
   */
  lemma RowRoundTrip(chain: Option<string>, priv: Option<string>, addr: Option<string>)
    ensures ParseRecord(FormatRow(chain, priv, addr)) == Some([CellText(chain), CellText(priv), CellText(addr)])
  {
    var a, b, c := CellText(chain), CellText(priv), CellText(addr);
    var tailB := "," + (EscapeCsv(Some(b)) + ("," + EscapeCsv(Some(c))));
    TwoFields(b, c);
    FieldRoundTrip(a, tailB);
    assert tailB[1..] == EscapeCsv(Some(b)) + ("," + EscapeCsv(Some(c)));
    RecordNext(EscapeCsv(Some(a)) + tailB, a, tailB);
    assert [a] + [b, c] == [a, b, c];
  }

  /** The last two fields of a data line read back as themselves. */
  lemma TwoFields(b: string, c: string)
    ensures ParseRecord(EscapeCsv(Some(b)) + ("," + EscapeCsv(Some(c)))) == Some([b, c])
  {
    var eb, ec := EscapeCsv(Some(b)), EscapeCsv(Some(c));
    var tailC := "," + ec;
    LastField(c);
    FieldRoundTrip(b, tailC);
    assert tailC[1..] == ec;
    RecordNext(eb + tailC, b, tailC);
    assert [b] + [c] == [b, c];
  }

  /** The last field of a line reads back as itself. */
  lemma LastField(c: string)
    ensures ParseRecord(EscapeCsv(Some(c))) == Some([c])
  {
    var ec := EscapeCsv(Some(c));
    FieldRoundTrip(c, []);
    assert ec + [] == ec;
    RecordLast(ec, c);
  }

  lemma RecordLast(s: string, f: string)
    requires ParseField(s) == Some((f, []))
    ensures ParseRecord(s) == Some([f])
  {
  }

  lemma RecordNext(s: string, f: string, rest: string)
    requires ParseField(s) == Some((f, rest)) && rest != [] && rest[0] == ','
    ensures ParseRecord(s) ==
      match ParseRecord(rest[1..])
      case None => None
      case Some(fs) => Some([f] + fs)
  {
  }

  /** The header line reads as the three column names. */
  lemma HeaderColumns()
    ensures ParseRecord(Header()) == Some([ChainColumn, KeyColumn, AddressColumn])
  {
    assert !NeedsQuote(ChainColumn);
    assert !NeedsQuote(KeyColumn);
    assert !NeedsQuote(AddressColumn);
    RowRoundTrip(Some(ChainColumn), Some(KeyColumn), Some(AddressColumn));
  }
}
