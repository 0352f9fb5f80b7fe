/** The quote-aware CSV line splitter `parseCSVLine` of src/parser.ts.

    The line is read one character at a time with a flag that says whether
    the reader is inside a quoted section. A `"` flips the flag, except that
    inside quotes a `""` pair stands for one literal `"`; a `,` outside quotes
    ends the current field; every other character is copied into the current
    field. This is the quoting grammar of RFC 4180, section 2, rules 5 to 7,
    read leniently: a quote anywhere in a field flips the state. */
module CsvParser {

  /** The reader's state between two characters. */
  datatype ScanState = ScanState(fields: seq<string>, current: string, insideQuotes: bool)

  const Start := ScanState([], "", false)

  /** The state after reading `s` from state `st`. This is the specification
      of the loop in ParseCSVLine: one step per character, two for an
      escaped pair. The lookahead `|s| > 1` is the end-of-line check: a `"`
      at the last index has no successor and never forms an escaped pair. */
  function Scan(s: string, st: ScanState): (r: ScanState)
    ensures st.fields <= r.fields
    decreases |s|
  {
    if s == [] then st
    else if s[0] == '"' then
      if st.insideQuotes && |s| > 1 && s[1] == '"' then
        Scan(s[2..], st.(current := st.current + ['"']))
      else
        Scan(s[1..], st.(insideQuotes := !st.insideQuotes))
    else if s[0] == ',' && !st.insideQuotes then
      Scan(s[1..], ScanState(st.fields + [st.current], "", false))
    else
      Scan(s[1..], st.(current := st.current + [s[0]]))
  }

  /** The fields a state would close with if the line ended here. */
  function Closed(st: ScanState): seq<string>
  {
    st.fields + [st.current]
  }

  /** The fields of `line`: the finished fields and the one still open. */
  function ParseLine(line: string): (r: seq<string>)
    ensures |r| >= 1
    ensures line == "" ==> r == [""]
  {
    Closed(Scan(line, Start))
  }

  /** parseCSVLine: the loop over the line's indices, with the `i++` that
      skips the second quote of an escaped pair. */
  method ParseCSVLine(line: string) returns (result: seq<string>)
    ensures result == ParseLine(line)
  {
    var fields: seq<string> := [];
    var current := "";
    var insideQuotes := false;
    var i := 0;
    while i < |line|
      invariant 0 <= i <= |line|
      invariant Scan(line[i..], ScanState(fields, current, insideQuotes)) == Scan(line, Start)
      decreases |line| - i
    {
      var c := line[i];
      if c == '"' {
        if insideQuotes && i + 1 < |line| && line[i + 1] == '"' {
          current := current + ['"'];
          assert line[i..][2..] == line[i + 2..];
          i := i + 1;
        } else {
          insideQuotes := !insideQuotes;
          assert line[i..][1..] == line[i + 1..];
        }
      } else if c == ',' && !insideQuotes {
        fields := fields + [current];
        current := "";
        assert line[i..][1..] == line[i + 1..];
      } else {
        current := current + [c];
        assert line[i..][1..] == line[i + 1..];
      }
      i := i + 1;
    }
    assert line[i..] == [];
    result := fields + [current];
  }

  // ---------------------------------------------------------------------
  // Reference definitions that do not follow the escape lookahead.

  /** The number of `"` characters in `s`. */
  function QuoteCount(s: string): nat
    decreases |s|
  {
    if s == [] then 0 else (if s[0] == '"' then 1 else 0) + QuoteCount(s[1..])
  }

  /** Whether an odd number of quotes has been read. */
  predicate Odd(n: nat) { n % 2 == 1 }

  /** The commas of `s` that stand outside quotes, when the quote state at
      the start of `s` is `inQ` and every `"` flips it. */
  function UnquotedCommas(s: string, inQ: bool): nat
    decreases |s|
  {
    if s == [] then 0
    else
      (if s[0] == ',' && !inQ then 1 else 0)
      + UnquotedCommas(s[1..], if s[0] == '"' then !inQ else inQ)
  }

  /** `s` cut at its commas that stand outside quotes, when the quote state
      at the start of `s` is `inQ` and every `"` flips it, with the quotes
      dropped: field by field, the characters that must reach the fields
      verbatim. */
  function KeptFields(s: string, inQ: bool): (r: seq<string>)
    ensures |r| >= 1
    decreases |s|
  {
    if s == [] then [""]
    else if s[0] == '"' then KeptFields(s[1..], !inQ)
    else
      var t := KeptFields(s[1..], inQ);
      if s[0] == ',' && !inQ then [""] + t else [[s[0]] + t[0]] + t[1..]
  }

  /** `s` without its quotes. */
  function Unquote(s: string): string
    decreases |s|
  {
    if s == [] then [] else (if s[0] == '"' then [] else [s[0]]) + Unquote(s[1..])
  }

  /** Each field without its quotes. */
  function Unquoted(fs: seq<string>): seq<string>
  {
    seq(|fs|, i requires 0 <= i < |fs| => Unquote(fs[i]))
  }

  /** All fields, concatenated in order. */
  function Flatten(fs: seq<string>): string
    decreases |fs|
  {
    if fs == [] then [] else Flatten(fs[..|fs| - 1]) + fs[|fs| - 1]
  }

  /** `s` split at every comma. */
  function Split(s: string): (r: seq<string>)
    ensures |r| >= 1
    decreases |s|
  {
    if s == [] then [""]
    else
      var t := Split(s[1..]);
      if s[0] == ',' then [""] + t else [[s[0]] + t[0]] + t[1..]
  }

  /** The fields joined with commas. */
  function Join(fs: seq<string>): string
    decreases |fs|
  {
    if fs == [] then ""
    else if |fs| == 1 then fs[0]
    else fs[0] + [','] + Join(fs[1..])
  }

  /** A line read to this point does not end in a `"`, so no escaped pair
      straddles the point. */
  predicate EndsClean(s: string)
  {
    s == [] || s[|s| - 1] != '"'
  }

  // ---------------------------------------------------------------------
  // The encoder the parser inverts: quote when needed, or quote always.

  /** A field that must be quoted: it holds a comma, a quote or a line break. */
  predicate NeedsQuotes(f: string)
  {
    ',' in f || '"' in f || '\n' in f || '\r' in f
  }

  /** Every inner `"` doubled. */
  function DoubleQuotes(f: string): string
    decreases |f|
  {
    if f == [] then [] else (if f[0] == '"' then ['"', '"'] else [f[0]]) + DoubleQuotes(f[1..])
  }

  function EncodeField(f: string, quoteAll: bool): string
  {
    if quoteAll || NeedsQuotes(f) then ['"'] + DoubleQuotes(f) + ['"'] else f
  }

  function EncodeFields(fs: seq<string>, quoteAll: bool): (r: seq<string>)
    ensures |r| == |fs|
    decreases |fs|
  {
    if fs == [] then [] else [EncodeField(fs[0], quoteAll)] + EncodeFields(fs[1..], quoteAll)
  }

  function EncodeLine(fs: seq<string>, quoteAll: bool): string
  {
    Join(EncodeFields(fs, quoteAll))
  }

  // ---------------------------------------------------------------------
  // Properties of the parser.

  /** The quote state after reading `s` is the parity of the quotes read:
      an escaped pair leaves it unchanged and any other `"` flips it. */
  lemma {:induction false} ScanQuoteParity(s: string, st: ScanState)
    ensures Scan(s, st).insideQuotes == (st.insideQuotes != Odd(QuoteCount(s)))
    decreases |s|
  {
    if s == [] {
    } else if s[0] == '"' {
      if st.insideQuotes && |s| > 1 && s[1] == '"' {
        ScanQuoteParity(s[2..], st.(current := st.current + ['"']));
        assert QuoteCount(s) == 2 + QuoteCount(s[2..]) by {
          assert s[1..][1..] == s[2..];
        }
      } else {
        ScanQuoteParity(s[1..], st.(insideQuotes := !st.insideQuotes));
      }
    } else if s[0] == ',' && !st.insideQuotes {
      ScanQuoteParity(s[1..], ScanState(st.fields + [st.current], "", false));
    } else {
      ScanQuoteParity(s[1..], st.(current := st.current + [s[0]]));
    }
  }

  lemma {:induction false} ScanFieldCount(s: string, st: ScanState)
    ensures |Scan(s, st).fields| == |st.fields| + UnquotedCommas(s, st.insideQuotes)
    decreases |s|
  {
    if s == [] {
    } else if s[0] == '"' {
      if st.insideQuotes && |s| > 1 && s[1] == '"' {
        ScanFieldCount(s[2..], st.(current := st.current + ['"']));
        assert UnquotedCommas(s, true) == UnquotedCommas(s[2..], true) by {
          assert s[1..][1..] == s[2..];
        }
      } else {
        ScanFieldCount(s[1..], st.(insideQuotes := !st.insideQuotes));
      }
    } else if s[0] == ',' && !st.insideQuotes {
      ScanFieldCount(s[1..], ScanState(st.fields + [st.current], "", false));
    } else {
      ScanFieldCount(s[1..], st.(current := st.current + [s[0]]));
    }
  }

  /** There is one field more than there are commas outside quotes. */
  lemma FieldCount(line: string)
    ensures |ParseLine(line)| == 1 + UnquotedCommas(line, false)
  {
    ScanFieldCount(line, Start);
  }

  lemma {:induction false} ScanSplit(s: string, fs: seq<string>, cur: string)
    requires '"' !in s
    ensures var st := Scan(s, ScanState(fs, cur, false));
            st.fields + [st.current] == fs + [cur + Split(s)[0]] + Split(s)[1..]
    decreases |s|
  {
    if s == [] {
      assert cur + Split(s)[0] == cur;
    } else {
      var t := Split(s[1..]);
      assert s[0] != '"';
      assert '"' !in s[1..];
      if s[0] == ',' {
        ScanSplit(s[1..], fs + [cur], "");
        assert Scan(s, ScanState(fs, cur, false)) == Scan(s[1..], ScanState(fs + [cur], "", false));
        assert Split(s) == [""] + t;
        assert cur + Split(s)[0] == cur;
        assert Split(s)[1..] == t;
        assert [t[0]] + t[1..] == t;
        assert "" + t[0] == t[0];
        assert fs + [cur] + ["" + t[0]] + t[1..] == fs + [cur] + t;
      } else {
        ScanSplit(s[1..], fs, cur + [s[0]]);
        assert Scan(s, ScanState(fs, cur, false)) == Scan(s[1..], ScanState(fs, cur + [s[0]], false));
        assert Split(s) == [[s[0]] + t[0]] + t[1..];
        assert Split(s)[1..] == t[1..];
        assert cur + [s[0]] + t[0] == cur + ([s[0]] + t[0]);
      }
    }
  }

  /** A line with no `"` splits at every comma, in order. */
  lemma NoQuotesSplitsAtCommas(line: string)
    requires '"' !in line
    ensures ParseLine(line) == Split(line)
  {
    ScanSplit(line, [], "");
    var r := Split(line);
    assert [""  + r[0]] + r[1..] == r by { assert "" + r[0] == r[0]; }
  }

  lemma {:induction false} JoinSplit(s: string)
    ensures Join(Split(s)) == s
    decreases |s|
  {
    if s != [] {
      JoinSplit(s[1..]);
      var t := Split(s[1..]);
      if s[0] == ',' {
        assert Split(s)[1..] == t;
      } else if |t| == 1 {
        assert Split(s) == [[s[0]] + t[0]];
      } else {
        assert Split(s)[1..] == t[1..];
        assert Join(t) == t[0] + [','] + Join(t[1..]);
      }
    }
  }

  /** A line with no `"` is its fields joined back with commas. */
  lemma NoQuotesLossless(line: string)
    requires '"' !in line
    ensures Join(ParseLine(line)) == line
  {
    NoQuotesSplitsAtCommas(line);
    JoinSplit(line);
  }

  lemma {:induction false} UnquoteAppend(a: string, b: string)
    ensures Unquote(a + b) == Unquote(a) + Unquote(b)
    decreases |a|
  {
    if a != [] {
      UnquoteAppend(a[1..], b);
      assert (a + b)[0] == a[0];
      assert (a + b)[1..] == a[1..] + b;
      var h := if a[0] == '"' then [] else [a[0]];
      assert Unquote(a + b) == h + Unquote(a[1..] + b);
      assert Unquote(a) == h + Unquote(a[1..]);
    } else {
      assert a + b == b;
    }
  }

  lemma FlattenAppend(fs: seq<string>, f: string)
    ensures Flatten(fs + [f]) == Flatten(fs) + f
  {
    assert (fs + [f])[..|fs|] == fs;
  }

  /** The first of the fields `t` continues the open field `cur`. */
  function Attach(cur: string, t: seq<string>): seq<string>
    requires |t| >= 1
  {
    [cur + t[0]] + t[1..]
  }

  lemma UnquotedAppend(a: seq<string>, b: seq<string>)
    ensures Unquoted(a + b) == Unquoted(a) + Unquoted(b)
  {
  }

  lemma UnquoteSnoc(a: string, c: char)
    ensures Unquote(a + [c]) == Unquote(a) + (if c == '"' then [] else [c])
  {
    UnquoteAppend(a, [c]);
    assert Unquote([c]) == (if c == '"' then [] else [c]) by { assert [c][1..] == []; }
  }

  lemma {:induction false} ScanKeptFields(s: string, st: ScanState)
    ensures Unquoted(Closed(Scan(s, st)))
         == Unquoted(st.fields) + Attach(Unquote(st.current), KeptFields(s, st.insideQuotes))
    decreases |s|
  {
    var uf, uc := Unquoted(st.fields), Unquote(st.current);
    if s == [] {
      UnquotedAppend(st.fields, [st.current]);
      assert uc + "" == uc;
    } else if s[0] == '"' {
      if st.insideQuotes && |s| > 1 && s[1] == '"' {
        ScanKeptFields(s[2..], st.(current := st.current + ['"']));
        assert Scan(s, st) == Scan(s[2..], st.(current := st.current + ['"']));
        UnquoteSnoc(st.current, '"');
        assert uc + [] == uc;
        assert KeptFields(s, true) == KeptFields(s[2..], true) by {
          assert s[1..][1..] == s[2..];
        }
      } else {
        ScanKeptFields(s[1..], st.(insideQuotes := !st.insideQuotes));
      }
    } else if s[0] == ',' && !st.insideQuotes {
      var st' := ScanState(st.fields + [st.current], "", false);
      var t := KeptFields(s[1..], false);
      assert Scan(s, st) == Scan(s[1..], st');
      assert KeptFields(s, false) == [""] + t;
      ScanKeptFields(s[1..], st');
      UnquotedAppend(st.fields, [st.current]);
      assert Unquoted(st'.fields) == uf + [uc];
      assert Unquote(st'.current) == "";
      AttachAfterComma(uf, uc, t);
    } else {
      var st' := st.(current := st.current + [s[0]]);
      var t := KeptFields(s[1..], st.insideQuotes);
      assert Scan(s, st) == Scan(s[1..], st');
      assert KeptFields(s, st.insideQuotes) == [[s[0]] + t[0]] + t[1..];
      ScanKeptFields(s[1..], st');
      UnquoteSnoc(st.current, s[0]);
      AttachChar(uc, s[0], t);
    }
  }

  lemma AttachAfterComma(uf: seq<string>, uc: string, t: seq<string>)
    requires |t| >= 1
    ensures (uf + [uc]) + Attach("", t) == uf + Attach(uc, [""] + t)
  {
    assert "" + t[0] == t[0];
    assert uc + ([""] + t)[0] == uc;
    assert ([""] + t)[1..] == t;
    assert [t[0]] + t[1..] == t;
  }

  lemma AttachChar(uc: string, c: char, t: seq<string>)
    requires |t| >= 1
    ensures Attach(uc + [c], t) == Attach(uc, [[c] + t[0]] + t[1..])
  {
    assert uc + [c] + t[0] == uc + ([c] + t[0]);
  }

  /** Field by field, every character other than a quote and a comma outside
      quotes reaches the field between the same commas outside quotes,
      verbatim and in order; a comma inside quotes is content. */
  lemma FieldsKeepContent(line: string)
    ensures Unquoted(ParseLine(line)) == KeptFields(line, false)
  {
    ScanKeptFields(line, Start);
    var t := KeptFields(line, false);
    assert Unquoted([]) == [];
    assert Unquote("") == "";
    assert Attach("", t) == t by { assert "" + t[0] == t[0]; }
  }

  lemma {:induction false} ScanLength(s: string, st: ScanState)
    ensures var e := Scan(s, st);
            |Flatten(e.fields)| + |e.fields| + |e.current|
            <= |Flatten(st.fields)| + |st.fields| + |st.current| + |s|
    decreases |s|
  {
    if s == [] {
    } else if s[0] == '"' {
      if st.insideQuotes && |s| > 1 && s[1] == '"' {
        ScanLength(s[2..], st.(current := st.current + ['"']));
      } else {
        ScanLength(s[1..], st.(insideQuotes := !st.insideQuotes));
      }
    } else if s[0] == ',' && !st.insideQuotes {
      ScanLength(s[1..], ScanState(st.fields + [st.current], "", false));
      FlattenAppend(st.fields, st.current);
    } else {
      ScanLength(s[1..], st.(current := st.current + [s[0]]));
    }
  }

  /** The fields and the commas between them never outnumber the line's
      characters. */
  lemma LengthBound(line: string)
    ensures |Flatten(ParseLine(line))| + |ParseLine(line)| - 1 <= |line|
  {
    ScanLength(line, Start);
    var st := Scan(line, Start);
    FlattenAppend(st.fields, st.current);
  }

  /** No escaped pair straddles the end of `a` when `b` follows it: either
      no quote ends `a` and starts `b`, or the last quote of `a` leaves the
      reader inside quotes (it opened a quoted section or was the second of
      a pair), so it does not pair with the quote that starts `b`. */
  predicate NoPairStraddles(a: string, b: string, st: ScanState)
  {
    EndsClean(a) || b == [] || b[0] != '"' || Scan(a, st).insideQuotes
  }

  /** Reading `a + b` is reading `a`, then `b`, when no escaped pair
      straddles the two. */
  lemma {:induction false} ScanConcat(a: string, b: string, st: ScanState)
    requires NoPairStraddles(a, b, st)
    ensures Scan(a + b, st) == Scan(b, Scan(a, st))
    decreases |a|
  {
    if a == [] {
      assert a + b == b;
    } else {
      var s := a + b;
      assert s[0] == a[0];
      if a[0] == '"' && |a| == 1 {
        assert a[1..] == [] && s[1..] == b;
        assert Scan(a, st) == st.(insideQuotes := !st.insideQuotes);
      } else if a[0] == '"' {
        assert s[1] == a[1];
        if st.insideQuotes && a[1] == '"' {
          var st' := st.(current := st.current + ['"']);
          assert s[2..] == a[2..] + b;
          assert a[2..] != [] ==> a[2..][|a[2..]| - 1] == a[|a| - 1];
          assert Scan(a, st) == Scan(a[2..], st');
          ScanConcat(a[2..], b, st');
        } else {
          var st' := st.(insideQuotes := !st.insideQuotes);
          assert s[1..] == a[1..] + b;
          assert a[1..][|a[1..]| - 1] == a[|a| - 1];
          assert Scan(a, st) == Scan(a[1..], st');
          ScanConcat(a[1..], b, st');
        }
      } else {
        var st' := if a[0] == ',' && !st.insideQuotes
                   then ScanState(st.fields + [st.current], "", false)
                   else st.(current := st.current + [a[0]]);
        assert s[1..] == a[1..] + b;
        assert a[1..] != [] ==> a[1..][|a[1..]| - 1] == a[|a| - 1];
        assert Scan(a, st) == Scan(a[1..], st');
        ScanConcat(a[1..], b, st');
      }
    }
  }

  /** Inside quotes, a `""` pair adds exactly one `"` to the open field and
      leaves the quote state as it was. */
  lemma EscapedPair(p: string, r: string)
    requires Odd(QuoteCount(p))
    ensures var st := Scan(p, Start);
            Scan(p + ['"', '"'] + r, Start) == Scan(r, st.(current := st.current + ['"']))
  {
    ScanQuoteParity(p, Start);
    ScanConcat(p, ['"', '"'] + r, Start);
    assert p + ['"', '"'] + r == p + (['"', '"'] + r);
    assert (['"', '"'] + r)[2..] == r;
  }

  /** Any other `"` (outside quotes and not closing a section just before
      it, or inside quotes but not followed by a second `"`) adds nothing
      and flips the quote state. */
  lemma LoneQuote(p: string, r: string)
    requires Odd(QuoteCount(p)) || EndsClean(p)
    requires !Odd(QuoteCount(p)) || r == [] || r[0] != '"'
    ensures var st := Scan(p, Start);
            Scan(p + ['"'] + r, Start) == Scan(r, st.(insideQuotes := !st.insideQuotes))
  {
    ScanQuoteParity(p, Start);
    ScanConcat(p, ['"'] + r, Start);
    assert p + ['"'] + r == p + (['"'] + r);
    assert (['"'] + r)[1..] == r;
  }

  /** A `"` at the last index is never an escaped pair: it is dropped. */
  lemma LastQuoteDropped(p: string)
    requires Odd(QuoteCount(p)) || EndsClean(p)
    ensures ParseLine(p + ['"']) == ParseLine(p)
  {
    LoneQuote(p, []);
    assert p + ['"'] + [] == p + ['"'];
  }

  lemma {:induction false} ScanQuotedTail(s: string, st: ScanState)
    requires st.insideQuotes && '"' !in s
    ensures Scan(s, st) == st.(current := st.current + s)
    decreases |s|
  {
    if s == [] {
      assert st.current + s == st.current;
    } else {
      ScanQuotedTail(s[1..], st.(current := st.current + [s[0]]));
      assert st.current + [s[0]] + s[1..] == st.current + s;
    }
  }

  /** After an opening quote that is never closed, the rest of the line,
      commas included, ends up in the last field. */
  lemma UnmatchedQuote(p: string, r: string)
    requires EndsClean(p) && !Odd(QuoteCount(p)) && '"' !in r
    ensures var f := ParseLine(p);
            ParseLine(p + ['"'] + r) == f[..|f| - 1] + [f[|f| - 1] + r]
  {
    var st := Scan(p, Start);
    LoneQuote(p, r);
    ScanQuoteParity(p, Start);
    ScanQuotedTail(r, st.(insideQuotes := true));
    assert ParseLine(p)[..|ParseLine(p)| - 1] == st.fields;
  }

  // ---------------------------------------------------------------------
  // The round trip with the encoder.

  lemma {:induction false} ScanQuotedBody(f: string, rest: string, st: ScanState)
    requires st.insideQuotes
    requires rest == [] || rest[0] != '"'
    ensures Scan(DoubleQuotes(f) + ['"'] + rest, st)
         == Scan(rest, ScanState(st.fields, st.current + f, false))
    decreases |f|
  {
    var s := DoubleQuotes(f) + ['"'] + rest;
    if f == [] {
      assert s == ['"'] + rest;
      assert s[1..] == rest;
      assert st.current + f == st.current;
    } else if f[0] == '"' {
      assert s == ['"', '"'] + (DoubleQuotes(f[1..]) + ['"'] + rest);
      assert s[2..] == DoubleQuotes(f[1..]) + ['"'] + rest;
      ScanQuotedBody(f[1..], rest, st.(current := st.current + ['"']));
      assert st.current + ['"'] + f[1..] == st.current + f;
    } else {
      assert s == [f[0]] + (DoubleQuotes(f[1..]) + ['"'] + rest);
      assert s[1..] == DoubleQuotes(f[1..]) + ['"'] + rest;
      ScanQuotedBody(f[1..], rest, st.(current := st.current + [f[0]]));
      assert st.current + [f[0]] + f[1..] == st.current + f;
    }
  }

  lemma {:induction false} ScanBare(f: string, rest: string, st: ScanState)
    requires !st.insideQuotes && ',' !in f && '"' !in f
    ensures Scan(f + rest, st) == Scan(rest, st.(current := st.current + f))
    decreases |f|
  {
    if f == [] {
      assert f + rest == rest;
      assert st.current + f == st.current;
    } else {
      assert (f + rest)[1..] == f[1..] + rest;
      ScanBare(f[1..], rest, st.(current := st.current + [f[0]]));
      assert st.current + [f[0]] + f[1..] == st.current + f;
    }
  }

  /** An encoded field followed by `rest` (empty, or starting with the
      separating comma) reads back as the field. */
  lemma ScanEncodedField(f: string, quoteAll: bool, rest: string, st: ScanState)
    requires !st.insideQuotes && st.current == ""
    requires rest == [] || rest[0] == ','
    ensures Scan(EncodeField(f, quoteAll) + rest, st)
         == Scan(rest, ScanState(st.fields, f, false))
  {
    if quoteAll || NeedsQuotes(f) {
      var s := ['"'] + DoubleQuotes(f) + ['"'] + rest;
      assert s[1..] == DoubleQuotes(f) + ['"'] + rest;
      ScanQuotedBody(f, rest, st.(insideQuotes := true));
      assert st.current + f == f;
    } else {
      ScanBare(f, rest, st);
      assert st.current + f == f;
    }
  }

  lemma {:induction false} ScanEncodedFields(fs: seq<string>, quoteAll: bool, st: ScanState)
    requires |fs| >= 1 && !st.insideQuotes && st.current == ""
    ensures Scan(EncodeLine(fs, quoteAll), st)
         == ScanState(st.fields + fs[..|fs| - 1], fs[|fs| - 1], false)
    decreases |fs|
  {
    var e := EncodeFields(fs, quoteAll);
    if |fs| == 1 {
      assert EncodeLine(fs, quoteAll) == EncodeField(fs[0], quoteAll) + [];
      ScanEncodedField(fs[0], quoteAll, [], st);
      assert st.fields + fs[..0] == st.fields;
    } else {
      var tail := EncodeLine(fs[1..], quoteAll);
      assert e[1..] == EncodeFields(fs[1..], quoteAll);
      assert EncodeLine(fs, quoteAll) == EncodeField(fs[0], quoteAll) + ([','] + tail);
      ScanEncodedField(fs[0], quoteAll, [','] + tail, st);
      assert ([','] + tail)[1..] == tail;
      var st' := ScanState(st.fields + [fs[0]], "", false);
      ScanEncodedFields(fs[1..], quoteAll, st');
      assert st.fields + [fs[0]] + fs[1..][..|fs| - 2] == st.fields + fs[..|fs| - 1];
    }
  }

  /** Fields written with commas between them, each either bare (when it
      needs no quoting) or quoted with its inner quotes doubled, parse back
      to the same fields. */
  lemma RoundTrip(fs: seq<string>, quoteAll: bool)
    requires |fs| >= 1
    ensures ParseLine(EncodeLine(fs, quoteAll)) == fs
  {
    ScanEncodedFields(fs, quoteAll, Start);
    assert fs[..|fs| - 1] + [fs[|fs| - 1]] == fs;
  }
}
