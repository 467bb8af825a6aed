/**
 * Bean path expressions (`BeanPath`): the tokenizer that splits an expression such as
 * `person.friends[5].name` or `['person']['friends'][5]['name']` into its parts, and
 * the traversal that follows those parts through nested beans.
 */
module CoreBean {
  import opened Wrappers

  // ---------------------------------------------------------------- characters and text

  /** The boundary characters `.`, `[` and `]` (`expChars`). */
  predicate IsSeparator(c: char)
  {
    c == '.' || c == '[' || c == ']'
  }

  predicate NoSeparator(s: string)
  {
    forall k :: 0 <= k < |s| ==> !IsSeparator(s[k])
  }

  /** True when `t` occurs in `s` as a contiguous piece. */
  function ContainsInfix(s: string, t: string): bool
    decreases |s|
  {
    if |s| < |t| then false else s[..|t|] == t || ContainsInfix(s[1..], t)
  }

  predicate InfixAt(s: string, t: string, i: int)
  {
    0 <= i && i + |t| <= |s| && s[i..i + |t|] == t
  }

  /** `ContainsInfix` agrees with the definition by position. */
  lemma {:induction false} ContainsInfixIff(s: string, t: string)
    ensures ContainsInfix(s, t) <==> exists i :: InfixAt(s, t, i)
    decreases |s|
  {
    if |s| < |t| {
      forall i ensures !InfixAt(s, t, i) { }
    } else if s[..|t|] == t {
      assert InfixAt(s, t, 0);
    } else {
      ContainsInfixIff(s[1..], t);
      if ContainsInfix(s[1..], t) {
        var i :| InfixAt(s[1..], t, i);
        assert s[1..][i..i + |t|] == s[i + 1..i + 1 + |t|];
        assert InfixAt(s, t, i + 1);
      } else {
        forall i | InfixAt(s, t, i) ensures false {
          if i > 0 {
            assert s[1..][i - 1..i - 1 + |t|] == s[i..i + |t|];
            assert InfixAt(s[1..], t, i - 1);
          }
        }
      }
    }
  }

  /** One of the marks of a condition or a key list (`" = "`, `" > "`, `" < "`, `" like "`
      or `","`) starts at position `i` of `s`. */
  predicate OperatorAt(s: string, i: int)
  {
    InfixAt(s, " = ", i) || InfixAt(s, " > ", i) || InfixAt(s, " < ", i)
    || InfixAt(s, " like ", i) || InfixAt(s, ",", i)
  }

  /** The text marks a condition or a key list: one of the marks occurs in it. */
  predicate HasOperator(s: string)
  {
    exists i :: 0 <= i <= |s| && OperatorAt(s, i)
  }

  /** `HasOperator` is `containsAny` over the five marks, each found by substring search. */
  lemma HasOperatorContains(s: string)
    ensures HasOperator(s) <==> ContainsInfix(s, " = ") || ContainsInfix(s, " > ") || ContainsInfix(s, " < ")
                                || ContainsInfix(s, " like ") || ContainsInfix(s, ",")
  {
    ContainsInfixIff(s, " = ");
    ContainsInfixIff(s, " > ");
    ContainsInfixIff(s, " < ");
    ContainsInfixIff(s, " like ");
    ContainsInfixIff(s, ",");
    forall t, i | t in [" = ", " > ", " < ", " like ", ","] && InfixAt(s, t, i)
      ensures HasOperator(s)
    {
      assert OperatorAt(s, i);
    }
    if HasOperator(s) {
      var i :| 0 <= i <= |s| && OperatorAt(s, i);
    }
  }

  /** True when `s` is wrapped in single quotes: it starts and ends with `'`. */
  predicate IsQuoted(s: string)
  {
    |s| >= 2 && s[0] == '\'' && s[|s| - 1] == '\''
  }

  /** `StringUtils.unWrap(s, '\'')`, taken to strip one leading and one trailing quote when both are present. */
  function UnWrap(s: string): (r: string)
    ensures IsQuoted(s) ==> s == "'" + r + "'"
    ensures !IsQuoted(s) ==> r == s
  {
    if IsQuoted(s) then s[1..|s| - 1] else s
  }

  /** `unWrapIfPossible`: quotes are stripped from a plain key, a condition or key list is left as it is. */
  function UnWrapIfPossible(s: string): (r: string)
    ensures HasOperator(s) ==> r == s
    ensures !HasOperator(s) && IsQuoted(s) ==> s == "'" + r + "'"
    ensures !IsQuoted(s) ==> r == s
  {
    if HasOperator(s) then s else UnWrap(s)
  }

  /** Unwrapping only drops characters: every character of the result is one of the input's. */
  lemma UnWrapKeepsChars(s: string)
    ensures forall k :: 0 <= k < |UnWrapIfPossible(s)| ==> UnWrapIfPossible(s)[k] in s
  {
    var r := UnWrapIfPossible(s);
    forall k | 0 <= k < |r| ensures r[k] in s {
      if r != s {
        assert r[k] == s[k + 1];
      }
    }
  }

  /** A quoted plain key loses exactly its quotes. */
  lemma UnWrapQuotedKey(key: string)
    requires !HasOperator("'" + key + "'")
    ensures UnWrapIfPossible("'" + key + "'") == key
  {
  }

  // ---------------------------------------------------------------- bracket structure

  /** After reading `s`, a `[` is open: the last boundary character of `s` is `[`. */
  function OpenBracket(s: string): bool
  {
    if s == [] then false
    else if IsSeparator(s[|s| - 1]) then s[|s| - 1] == '['
    else OpenBracket(s[..|s| - 1])
  }

  /** The characters of `s` after its last boundary character. */
  function Trailing(s: string): string
  {
    if s == [] then []
    else if IsSeparator(s[|s| - 1]) then []
    else Trailing(s[..|s| - 1]) + [s[|s| - 1]]
  }

  /** The text after the last boundary character is a suffix. */
  lemma {:induction false} TrailingSuffix(s: string)
    ensures |Trailing(s)| <= |s| && Trailing(s) == s[|s| - |Trailing(s)|..]
    decreases |s|
  {
    if s != [] && !IsSeparator(s[|s| - 1]) {
      var p := s[..|s| - 1];
      TrailingSuffix(p);
      assert s[|s| - |Trailing(s)|..] == p[|p| - |Trailing(p)|..] + [s[|s| - 1]];
    }
  }

  /** The characters of `s` that are not boundary characters, in order. */
  function Strip(s: string): string
  {
    if s == [] then []
    else if IsSeparator(s[|s| - 1]) then Strip(s[..|s| - 1])
    else Strip(s[..|s| - 1]) + [s[|s| - 1]]
  }

  /** The character at position `k` of `s` is acceptable after `s[..k]`: a `]` closes an
      open `[`, and a `.` or `[` never appears inside brackets. */
  ghost predicate FitsAt(s: string, k: int)
    requires 0 <= k < |s|
  {
    && (s[k] == ']' ==> OpenBracket(s[..k]))
    && (s[k] == '.' || s[k] == '[' ==> !OpenBracket(s[..k]))
  }

  /** Every boundary character of `s` is acceptable where it stands. */
  ghost predicate Balanced(s: string)
  {
    forall k :: 0 <= k < |s| ==> FitsAt(s, k)
  }

  function Join(parts: seq<string>): string
  {
    if parts == [] then [] else Join(parts[..|parts| - 1]) + parts[|parts| - 1]
  }

  // ---------------------------------------------------------------- the tokenizer

  /** `IllegalArgumentException` thrown by `init`, with the position its message reports:
      "we find ']' but no '['" and "we find '[' but no ']'". */
  datatype BadExpression = UnmatchedClose(index: int) | UnclosedOpen(index: int)

  /** The tokenizer's state: the parts so far, the builder, and `isNumStart`. */
  datatype Scanner = Scanner(parts: seq<string>, builder: string, inBracket: bool)

  /** A parsed expression: whether it began with `$` (`isStartWith$`) and its parts. */
  datatype Path = Path(startsWithDollar: bool, parts: seq<string>)

  /** A non-empty builder becomes a part; the builder is reset. */
  function Flush(st: Scanner): Scanner
  {
    Scanner(if |st.builder| > 0 then st.parts + [UnWrapIfPossible(st.builder)] else st.parts, "", st.inBracket)
  }

  /** One character of the loop in `init`, met at position `index` of the expression. */
  function Step(st: Scanner, c: char, index: int): Result<Scanner, BadExpression>
  {
    if c == ']' then
      if !st.inBracket then Err(UnmatchedClose(index)) else Ok(Flush(st.(inBracket := false)))
    else if c == '.' || c == '[' then
      if st.inBracket then Err(UnclosedOpen(index)) else Ok(Flush(st.(inBracket := c == '[')))
    else
      Ok(st.(builder := st.builder + [c]))
  }

  /** The loop of `init` run over `s`, whose first character stands at position `offset`. */
  function ScanChars(s: string, offset: int): Result<Scanner, BadExpression>
  {
    if s == [] then Ok(Scanner([], [], false))
    else match ScanChars(s[..|s| - 1], offset)
      case Err(e) => Err(e)
      case Ok(st) => Step(st, s[|s| - 1], offset + |s| - 1)
  }

  predicate StartsWithDollar(expression: string)
  {
    |expression| > 0 && expression[0] == '$'
  }

  /** Where the loop starts doing work: past a leading `$`. */
  function BodyStart(expression: string): (start: nat)
    ensures start <= |expression| && start <= 1
    ensures start == 1 <==> StartsWithDollar(expression)
    ensures start == 0 <==> !StartsWithDollar(expression)
  {
    if StartsWithDollar(expression) then 1 else 0
  }

  /** `init(expression)` as a value: the parts, or the exception it throws. */
  function Tokenize(expression: string): Result<Path, BadExpression>
  {
    var start := BodyStart(expression);
    match ScanChars(expression[start..], start)
    case Err(e) => Err(e)
    case Ok(st) =>
      if st.inBracket then Err(UnclosedOpen(|expression| - 1))
      else Ok(Path(StartsWithDollar(expression), Flush(st).parts))
  }

  // ---------------------------------------------------------------- properties of the tokenizer

  /** What the scanner holds after a successful run: the builder is the text after the
      last boundary character, the bracket flag says whether a `[` is open, and no part
      or builder contains a boundary character. */
  lemma {:induction false} ScanState(s: string, offset: int)
    requires ScanChars(s, offset).Ok?
    ensures var st := ScanChars(s, offset).value;
      && st.builder == Trailing(s)
      && st.inBracket == OpenBracket(s)
      && NoSeparator(st.builder)
      && forall j :: 0 <= j < |st.parts| ==> NoSeparator(st.parts[j])
    decreases |s|
  {
    if s != [] {
      var p := s[..|s| - 1];
      ScanState(p, offset);
      var st := ScanChars(p, offset).value;
      if |st.builder| > 0 {
        UnWrapNoSeparator(st.builder);
      }
    }
  }

  /** Unwrapping text without boundary characters gives text without them. */
  lemma UnWrapNoSeparator(w: string)
    requires NoSeparator(w)
    ensures NoSeparator(UnWrapIfPossible(w))
  {
    var r := UnWrapIfPossible(w);
    UnWrapKeepsChars(w);
    forall k | 0 <= k < |r| ensures !IsSeparator(r[k]) {
      var m :| 0 <= m < |w| && w[m] == r[k];
    }
  }

  /** The scan of `s` succeeds exactly when `s` is balanced. */
  lemma {:induction false} ScanOkIff(s: string, offset: int)
    ensures ScanChars(s, offset).Ok? <==> Balanced(s)
    decreases |s|
  {
    if s != [] {
      var p := s[..|s| - 1];
      ScanOkIff(p, offset);
      assert s[..|p|] == p;
      assert Balanced(s) <==> Balanced(p) && FitsAt(s, |p|) by {
        forall k | 0 <= k < |p| ensures FitsAt(s, k) <==> FitsAt(p, k) {
          assert s[..k] == p[..k];
        }
      }
      if ScanChars(p, offset).Ok? {
        ScanState(p, offset);
      }
    }
  }

  /** A failed scan stops at the first misplaced character and reports its position. */
  lemma {:induction false} ScanErrAt(s: string, offset: int)
    requires ScanChars(s, offset).Err?
    ensures var e := ScanChars(s, offset).error; var k := e.index - offset;
      && 0 <= k < |s|
      && Balanced(s[..k])
      && (e.UnmatchedClose? ==> s[k] == ']' && !OpenBracket(s[..k]))
      && (e.UnclosedOpen? ==> (s[k] == '.' || s[k] == '[') && OpenBracket(s[..k]))
    decreases |s|
  {
    var p := s[..|s| - 1];
    if ScanChars(p, offset).Err? {
      ScanErrAt(p, offset);
      var k := ScanChars(p, offset).error.index - offset;
      assert s[..k] == p[..k];
    } else {
      ScanState(p, offset);
      ScanOkIff(p, offset);
      assert s[..|p|] == p;
    }
  }

  /** No single quote occurs in `s`. */
  predicate NoQuote(s: string)
  {
    forall k :: 0 <= k < |s| ==> s[k] != '\''
  }

  /** Without quotes, flushing keeps the builder's text as it is. */
  lemma FlushPlain(st: Scanner)
    requires NoQuote(st.builder)
    ensures Flush(st).parts == if |st.builder| > 0 then st.parts + [st.builder] else st.parts
  {
    if |st.builder| > 0 {
      assert !IsQuoted(st.builder);
    }
  }

  lemma JoinSnoc(parts: seq<string>, w: string)
    ensures Join(parts + [w]) == Join(parts) + w
  {
    assert (parts + [w])[..|parts|] == parts;
  }

  /** The parts carry the expression's text in order with only the boundary characters
      removed, when nothing is quoted. */
  lemma {:induction false} ScanText(s: string, offset: int)
    requires ScanChars(s, offset).Ok? && NoQuote(s)
    ensures var st := ScanChars(s, offset).value;
      && Join(st.parts) + st.builder == Strip(s)
      && NoQuote(st.builder)
      && forall j :: 0 <= j < |st.parts| ==> |st.parts[j]| > 0
    decreases |s|
  {
    if s != [] {
      var p, c := s[..|s| - 1], s[|s| - 1];
      assert NoQuote(p) by { assert forall k :: 0 <= k < |p| ==> p[k] == s[k]; }
      ScanText(p, offset);
      var st := ScanChars(p, offset).value;
      var st' := ScanChars(s, offset).value;
      if IsSeparator(c) {
        assert Strip(s) == Strip(p);
        assert st'.parts == Flush(st).parts && st'.builder == [];
        FlushPlain(st);
        if |st.builder| > 0 {
          JoinSnoc(st.parts, st.builder);
          NonEmptySnoc(st.parts, st.builder);
        }
      } else {
        assert Strip(s) == Strip(p) + [c];
        assert st' == st.(builder := st.builder + [c]);
      }
    }
  }

  lemma NonEmptySnoc(parts: seq<string>, w: string)
    requires |w| > 0 && forall j :: 0 <= j < |parts| ==> |parts[j]| > 0
    ensures forall j :: 0 <= j < |parts + [w]| ==> |(parts + [w])[j]| > 0
  {
  }

  /** `init` succeeds exactly when every boundary character fits and no `[` is left open. */
  lemma TokenizeOkIff(expression: string)
    ensures var body := expression[BodyStart(expression)..];
      Tokenize(expression).Ok? <==> Balanced(body) && !OpenBracket(body)
  {
    var start := BodyStart(expression);
    ScanOkIff(expression[start..], start);
    if ScanChars(expression[start..], start).Ok? {
      ScanState(expression[start..], start);
    }
  }

  /** The exceptions of `init`: a `]` with no open `[`; a `.` or `[` inside brackets; a `[`
      still open at the end, reported at the last position. Everything before the reported
      position is balanced. */
  lemma TokenizeErrors(expression: string)
    requires Tokenize(expression).Err?
    ensures var e := Tokenize(expression).error; var i := e.index; var start := BodyStart(expression);
      || (&& start <= i < |expression|
          && Balanced(expression[start..i])
          && (e.UnmatchedClose? ==> expression[i] == ']' && !OpenBracket(expression[start..i]))
          && (e.UnclosedOpen? ==> (expression[i] == '.' || expression[i] == '[') && OpenBracket(expression[start..i])))
      || (&& e == UnclosedOpen(|expression| - 1)
          && Balanced(expression[start..])
          && OpenBracket(expression[start..]))
  {
    var start := BodyStart(expression);
    var body := expression[start..];
    if ScanChars(body, start).Err? {
      ScanErrAt(body, start);
      var i := ScanChars(body, start).error.index;
      assert body[..i - start] == expression[start..i];
    } else {
      ScanState(body, start);
      ScanOkIff(body, start);
    }
  }

  /** No part contains a boundary character, and a leading `$` is recorded. */
  lemma TokenizeParts(expression: string)
    requires Tokenize(expression).Ok?
    ensures Tokenize(expression).value.startsWithDollar == StartsWithDollar(expression)
    ensures var parts := Tokenize(expression).value.parts;
      forall j :: 0 <= j < |parts| ==> NoSeparator(parts[j])
  {
    var start := BodyStart(expression);
    ScanState(expression[start..], start);
    UnWrapNoSeparator(ScanChars(expression[start..], start).value.builder);
  }

  /** Without quotes, the parts are non-empty and spell out the expression after a leading
      `$`, boundary characters removed; so a `$` anywhere else is an ordinary character. */
  lemma TokenizeText(expression: string)
    requires Tokenize(expression).Ok? && NoQuote(expression)
    ensures var parts := Tokenize(expression).value.parts;
      && Join(parts) == Strip(expression[BodyStart(expression)..])
      && forall j :: 0 <= j < |parts| ==> |parts[j]| > 0
  {
    var start := BodyStart(expression);
    var body := expression[start..];
    NoQuoteSuffix(expression, start);
    ScanText(body, start);
    FlushText(ScanChars(body, start).value);
  }

  /** A text without quotes has none after any position. */
  lemma NoQuoteSuffix(s: string, start: nat)
    requires NoQuote(s) && start <= |s|
    ensures NoQuote(s[start..])
  {
    assert forall k :: 0 <= k < |s| - start ==> s[start..][k] == s[start + k];
  }

  /** The last flush of a scan without quotes appends the builder's text as a part. */
  lemma FlushText(st: Scanner)
    requires NoQuote(st.builder) && forall j :: 0 <= j < |st.parts| ==> |st.parts[j]| > 0
    ensures Join(Flush(st).parts) == Join(st.parts) + st.builder
    ensures forall j :: 0 <= j < |Flush(st).parts| ==> |Flush(st).parts[j]| > 0
  {
    FlushPlain(st);
    if |st.builder| > 0 {
      JoinSnoc(st.parts, st.builder);
      NonEmptySnoc(st.parts, st.builder);
    } else {
      assert Join(st.parts) + st.builder == Join(st.parts);
    }
  }

  /** The runs of `s` that a boundary character has closed: the non-empty maximal pieces of
      text between boundary characters, except the one still open at the end. */
  function Completed(s: string): seq<string>
    decreases |s|, 0
  {
    if s == [] then []
    else if IsSeparator(s[|s| - 1]) then Words(s[..|s| - 1])
    else Completed(s[..|s| - 1])
  }

  /** All non-empty maximal pieces of `s` between boundary characters, in order. */
  function Words(s: string): seq<string>
    decreases |s|, 1
  {
    Completed(s) + if |Trailing(s)| > 0 then [Trailing(s)] else []
  }

  /** Each word passed through `unWrapIfPossible`. */
  function UnWrapAll(ws: seq<string>): (r: seq<string>)
    ensures |r| == |ws|
    ensures forall j :: 0 <= j < |ws| ==> r[j] == UnWrapIfPossible(ws[j])
  {
    if ws == [] then [] else UnWrapAll(ws[..|ws| - 1]) + [UnWrapIfPossible(ws[|ws| - 1])]
  }

  /** The words are non-empty, hold no boundary character, and spell `s` with its boundary
      characters removed. */
  lemma {:induction false} WordsText(s: string)
    ensures Join(Words(s)) == Strip(s)
    ensures forall j :: 0 <= j < |Words(s)| ==> |Words(s)[j]| > 0 && NoSeparator(Words(s)[j])
    decreases |s|
  {
    if s != [] {
      var p, c := s[..|s| - 1], s[|s| - 1];
      WordsText(p);
      if IsSeparator(c) {
        assert Words(s) == Words(p);
      } else {
        assert Completed(s) == Completed(p);
        assert Trailing(s) == Trailing(p) + [c];
        assert Words(s) == Completed(p) + [Trailing(p) + [c]];
        TrailingSuffix(s);
        assert NoSeparator(Trailing(s)) by {
          TrailingNoSeparator(s);
        }
        if |Trailing(p)| > 0 {
          assert Words(p) == Completed(p) + [Trailing(p)];
          JoinSnoc(Completed(p), Trailing(p));
        } else {
          assert Words(p) == Completed(p);
        }
        JoinSnoc(Completed(p), Trailing(s));
        assert Strip(s) == Strip(p) + [c];
      }
    }
  }

  /** The text after the last boundary character holds none. */
  lemma {:induction false} TrailingNoSeparator(s: string)
    ensures NoSeparator(Trailing(s))
    decreases |s|
  {
    if s != [] && !IsSeparator(s[|s| - 1]) {
      TrailingNoSeparator(s[..|s| - 1]);
    }
  }

  /** A successful scan has produced the closed runs, each unwrapped where possible. */
  lemma {:induction false} ScanWords(s: string, offset: int)
    requires ScanChars(s, offset).Ok?
    ensures ScanChars(s, offset).value.parts == UnWrapAll(Completed(s))
    decreases |s|
  {
    if s != [] {
      var p := s[..|s| - 1];
      ScanWords(p, offset);
      ScanState(p, offset);
      var st := ScanChars(p, offset).value;
      if IsSeparator(s[|s| - 1]) {
        var ws := Completed(p);
        if |Trailing(p)| > 0 {
          assert (ws + [Trailing(p)])[..|ws|] == ws;
        } else {
          assert ws + [] == ws;
        }
      }
    }
  }

  /** The parts of a successful `init` are exactly the non-empty runs of the expression
      after a leading `$` between boundary characters, each passed through
      `unWrapIfPossible`: quoted keys lose their quotes, conditions and key lists stay. */
  lemma TokenizeWords(expression: string)
    requires Tokenize(expression).Ok?
    ensures Tokenize(expression).value.parts == UnWrapAll(Words(expression[BodyStart(expression)..]))
  {
    var start := BodyStart(expression);
    var body := expression[start..];
    ScanWords(body, start);
    ScanState(body, start);
    var ws := Completed(body);
    if |Trailing(body)| > 0 {
      assert (ws + [Trailing(body)])[..|ws|] == ws;
    } else {
      assert ws + [] == ws;
    }
  }

  /** One more character for the scanner. */
  lemma ScanSnoc(s: string, c: char, offset: int)
    ensures ScanChars(s + [c], offset) == match ScanChars(s, offset)
      case Err(e) => Err(e)
      case Ok(st) => Step(st, c, offset + |s|)
  {
    assert (s + [c])[..|s|] == s;
  }

  /** A run of ordinary characters only grows the builder. */
  lemma {:induction false} ScanWord(s: string, w: string, offset: int)
    requires ScanChars(s, offset).Ok? && NoSeparator(w)
    ensures ScanChars(s + w, offset) == Ok(ScanChars(s, offset).value.(builder := ScanChars(s, offset).value.builder + w))
    decreases |w|
  {
    if w == [] {
      assert s + w == s;
      var st := ScanChars(s, offset).value;
      assert st.builder + w == st.builder;
      assert st.(builder := st.builder) == st;
    } else {
      var v, c := w[..|w| - 1], w[|w| - 1];
      assert NoSeparator(v) && !IsSeparator(c);
      ScanWord(s, v, offset);
      var st := ScanChars(s, offset).value;
      assert s + w == (s + v) + [c];
      ScanSnoc(s + v, c, offset);
      assert ScanChars(s + w, offset) == Ok(st.(builder := st.builder + v + [c]));
      assert st.builder + v + [c] == st.builder + w;
    }
  }

  /** Text without the first character of a mark does not contain the mark. */
  lemma NoInfixWithout(s: string, t: string)
    requires |t| > 0 && forall k :: 0 <= k < |s| ==> s[k] != t[0]
    ensures !ContainsInfix(s, t)
  {
    ContainsInfixIff(s, t);
  }

  /** Every operator mark starts with a space or a comma, so text with neither has none. */
  lemma NoOperatorIn(s: string)
    requires forall k :: 0 <= k < |s| ==> s[k] != ' ' && s[k] != ','
    ensures !HasOperator(s)
  {
    HasOperatorContains(s);
    NoInfixWithout(s, " = ");
    NoInfixWithout(s, " > ");
    NoInfixWithout(s, " < ");
    NoInfixWithout(s, " like ");
    NoInfixWithout(s, ",");
  }

  /** The scanner after `s + w`, for a word `w`, from its state after `s`. */
  lemma ScanWordTo(s: string, w: string, offset: int, st: Scanner)
    requires ScanChars(s, offset) == Ok(st) && NoSeparator(w)
    ensures ScanChars(s + w, offset) == Ok(st.(builder := st.builder + w))
  {
    ScanWord(s, w, offset);
  }

  /** The scanner after `s` and one boundary character `c` that fits. */
  lemma ScanSepTo(s: string, c: char, offset: int, parts: seq<string>, w: string, inBracket: bool)
    requires ScanChars(s, offset) == Ok(Scanner(parts, w, inBracket))
    requires if c == ']' then inBracket else (c == '.' || c == '[') && !inBracket
    ensures ScanChars(s + [c], offset)
         == Ok(Scanner(if |w| > 0 then parts + [UnWrapIfPossible(w)] else parts, [], c == '['))
  {
    ScanSnoc(s, c, offset);
  }

  /** `init` from a finished scan of an expression that does not start with `$`. */
  lemma TokenizeFromScan(e: string, st: Scanner)
    requires !StartsWithDollar(e) && ScanChars(e, 0) == Ok(st) && !st.inBracket
    ensures Tokenize(e) == Ok(Path(false, Flush(st).parts))
  {
    assert e[0..] == e;
  }

  /** A word that becomes a part as it stands: it is not wrapped in quotes. */
  predicate PlainWord(w: string)
  {
    |w| > 0 && NoSeparator(w) && !IsQuoted(w)
  }

  /** A word whose quoted form becomes a part by losing its quotes. */
  predicate QuotableWord(w: string)
  {
    NoSeparator(w) && !HasOperator("'" + w + "'")
  }

  /** A word without separators, spaces or commas can be quoted. */
  lemma QuotableIf(w: string)
    requires NoSeparator(w) && forall k :: 0 <= k < |w| ==> w[k] != ' ' && w[k] != ','
    ensures QuotableWord(w)
  {
    var q := "'" + w + "'";
    forall k | 0 <= k < |q| ensures q[k] != ' ' && q[k] != ',' {
      if 0 < k < |q| - 1 {
        assert q[k] == w[k - 1];
      }
    }
    NoOperatorIn(q);
  }

  /** A word followed by a boundary character that fits adds the word as one part. */
  lemma ScanPart(s: string, parts: seq<string>, inBracket: bool, w: string, c: char)
    requires ScanChars(s, 0) == Ok(Scanner(parts, [], inBracket)) && NoSeparator(w) && |w| > 0
    requires if c == ']' then inBracket else (c == '.' || c == '[') && !inBracket
    ensures ScanChars(s + w + [c], 0) == Ok(Scanner(parts + [UnWrapIfPossible(w)], [], c == '['))
  {
    ScanWordTo(s, w, 0, Scanner(parts, [], inBracket));
    assert [] + w == w;
    ScanSepTo(s + w, c, 0, parts, w, inBracket);
  }

  /** The scan of `a.b[` for plain words `a` and `b`. */
  lemma DottedHead(a: string, b: string)
    requires PlainWord(a) && PlainWord(b)
    ensures ScanChars(a + "." + b + "[", 0) == Ok(Scanner([a, b], [], true))
  {
    var s1 := a + ".";
    DottedFirst(a);
    assert UnWrapIfPossible(b) == b;
    ScanPart(s1, [a], false, b, '[');
    assert s1 + b + ['['] == a + "." + b + "[";
    assert [a] + [b] == [a, b];
  }

  /** The scan of `a.` for a plain word `a`. */
  lemma DottedFirst(a: string)
    requires PlainWord(a)
    ensures ScanChars(a + ".", 0) == Ok(Scanner([a], [], false))
  {
    assert UnWrapIfPossible(a) == a;
    assert ScanChars([], 0) == Ok(Scanner([], [], false));
    ScanPart([], [], false, a, '.');
    assert [] + a + ['.'] == a + ".";
    assert [] + [a] == [a];
  }

  /** The scan of `a.b[c].` for plain words `a`, `b` and `c`. */
  lemma DottedMiddle(a: string, b: string, c: string)
    requires PlainWord(a) && PlainWord(b) && PlainWord(c)
    ensures ScanChars(a + "." + b + "[" + c + "]" + ".", 0) == Ok(Scanner([a, b, c], [], false))
  {
    DottedHead(a, b);
    assert UnWrapIfPossible(c) == c;
    var s2 := a + "." + b + "[";
    ScanPart(s2, [a, b], true, c, ']');
    assert [a, b] + [c] == [a, b, c];
    var s3 := s2 + c + [']'];
    ScanSepTo(s3, '.', 0, [a, b, c], [], false);
    assert s3 + ['.'] == a + "." + b + "[" + c + "]" + ".";
  }

  /** The dotted shape `a.b[c].d` of the documentation's example gives the parts `a, b, c, d`. */
  lemma DottedShape(a: string, b: string, c: string, d: string)
    requires PlainWord(a) && PlainWord(b) && PlainWord(c) && PlainWord(d) && a[0] != '$'
    ensures Tokenize(a + "." + b + "[" + c + "]" + "." + d) == Ok(Path(false, [a, b, c, d]))
  {
    var s4 := a + "." + b + "[" + c + "]" + ".";
    var e := s4 + d;
    assert e[0] == a[0];
    assert ScanChars(e, 0) == Ok(Scanner([a, b, c], d, false)) by {
      DottedMiddle(a, b, c);
      ScanWordTo(s4, d, 0, Scanner([a, b, c], [], false));
      assert [] + d == d;
    }
    assert Flush(Scanner([a, b, c], d, false)).parts == [a, b, c, d] by {
      assert UnWrapIfPossible(d) == d;
      assert [a, b, c] + [d] == [a, b, c, d];
    }
    TokenizeFromScan(e, Scanner([a, b, c], d, false));
  }

  /** The quoted form of a quotable word is a word that becomes the bare word. */
  lemma QuotedWord(w: string)
    requires QuotableWord(w)
    ensures |"'" + w + "'"| > 0 && NoSeparator("'" + w + "'")
    ensures UnWrapIfPossible("'" + w + "'") == w
  {
    UnWrapQuotedKey(w);
  }

  /** A quoted key in brackets after a scan that ended outside brackets adds the key. */
  lemma ScanQuotedKey(s: string, parts: seq<string>, w: string)
    requires ScanChars(s, 0) == Ok(Scanner(parts, [], false)) && QuotableWord(w)
    ensures ScanChars(s + "['" + w + "']", 0) == Ok(Scanner(parts + [w], [], false))
  {
    var q := "'" + w + "'";
    assert s + ['['] + q + [']'] == s + "['" + w + "']" by {
      assert s + ['['] + q + [']'] == s + "[" + q + "]";
      assert "[" + q + "]" == "['" + w + "']";
    }
    assert ScanChars(s + ['['], 0) == Ok(Scanner(parts, [], true)) by {
      ScanSepTo(s, '[', 0, parts, [], false);
    }
    assert ScanChars(s + ['['] + q + [']'], 0) == Ok(Scanner(parts + [w], [], false)) by {
      QuotedWord(w);
      ScanPart(s + ['['], parts, true, q, ']');
    }
  }

  /** A plain key in brackets after a scan that ended outside brackets adds the key. */
  lemma ScanPlainKey(s: string, parts: seq<string>, w: string)
    requires ScanChars(s, 0) == Ok(Scanner(parts, [], false)) && PlainWord(w)
    ensures ScanChars(s + "[" + w + "]", 0) == Ok(Scanner(parts + [w], [], false))
  {
    assert s + ['['] + w + [']'] == s + "[" + w + "]";
    assert UnWrapIfPossible(w) == w;
    ScanSepTo(s, '[', 0, parts, [], false);
    ScanPart(s + ['['], parts, true, w, ']');
  }

  /** The scan of `['a']` for a quotable word `a`. */
  lemma BracketedFirst(a: string)
    requires QuotableWord(a)
    ensures ScanChars("['" + a + "']", 0) == Ok(Scanner([a], [], false))
  {
    assert [] + "['" + a + "']" == "['" + a + "']";
    assert [] + [a] == [a];
    ScanQuotedKey([], [], a);
  }

  /** The scan of `['a']['b']` for quotable words `a` and `b`. */
  lemma BracketedHead(a: string, b: string)
    requires QuotableWord(a) && QuotableWord(b)
    ensures ScanChars("['" + a + "']['" + b + "']", 0) == Ok(Scanner([a, b], [], false))
  {
    assert "['" + a + "']" + "['" + b + "']" == "['" + a + "']['" + b + "']";
    assert [a] + [b] == [a, b];
    BracketedFirst(a);
    ScanQuotedKey("['" + a + "']", [a], b);
  }

  /** The scan of `['a']['b'][c]` for quotable words `a`, `b` and a plain word `c`. */
  lemma BracketedMiddle(a: string, b: string, c: string)
    requires QuotableWord(a) && QuotableWord(b) && PlainWord(c)
    ensures ScanChars("['" + a + "']['" + b + "'][" + c + "]", 0) == Ok(Scanner([a, b, c], [], false))
  {
    assert "['" + a + "']['" + b + "']" + "[" + c + "]" == "['" + a + "']['" + b + "'][" + c + "]";
    assert [a, b] + [c] == [a, b, c];
    BracketedHead(a, b);
    ScanPlainKey("['" + a + "']['" + b + "']", [a, b], c);
  }

  /** The bracketed shape `['a']['b'][c]['d']` gives the same parts `a, b, c, d`. */
  lemma BracketedShape(a: string, b: string, c: string, d: string)
    requires QuotableWord(a) && QuotableWord(b) && PlainWord(c) && QuotableWord(d)
    ensures Tokenize("['" + a + "']['" + b + "'][" + c + "]['" + d + "']") == Ok(Path(false, [a, b, c, d]))
  {
    var e := "['" + a + "']['" + b + "'][" + c + "]['" + d + "']";
    assert "['" + a + "']['" + b + "'][" + c + "]" + "['" + d + "']" == e;
    assert [a, b, c] + [d] == [a, b, c, d];
    assert e[0] == '[';
    BracketedMiddle(a, b, c);
    ScanQuotedKey("['" + a + "']['" + b + "'][" + c + "]", [a, b, c], d);
    TokenizeFromScan(e, Scanner([a, b, c, d], [], false));
  }

  /** The words of the documentation's example. */
  lemma ExampleWords()
    ensures PlainWord("person") && PlainWord("friends") && PlainWord("5") && PlainWord("name")
    ensures QuotableWord("person") && QuotableWord("friends") && QuotableWord("name")
  {
    QuotableIf("person");
    QuotableIf("friends");
    QuotableIf("name");
  }

  /** The two spellings of the documentation's example, `person.friends[5].name` and
      `['person']['friends'][5]['name']`, give the same parts. */
  lemma DottedExample()
    ensures Tokenize("person.friends[5].name") == Ok(Path(false, ["person", "friends", "5", "name"]))
  {
    ExampleWords();
    assert "person" + "." + "friends" + "[" + "5" + "]" + "." + "name" == "person.friends[5].name";
    DottedShape("person", "friends", "5", "name");
  }

  /** The bracketed spelling of the documentation's example. */
  lemma BracketedExample()
    ensures Tokenize("['person']['friends'][5]['name']") == Ok(Path(false, ["person", "friends", "5", "name"]))
  {
    ExampleWords();
    assert "['" + "person" + "']['" + "friends" + "'][" + "5" + "]['" + "name" + "']" == "['person']['friends'][5]['name']";
    BracketedShape("person", "friends", "5", "name");
  }

  /** A quoted empty key gives an empty part: `['']` is the single part `""`. */
  lemma EmptyQuotedKey()
    ensures Tokenize("['']") == Ok(Path(false, [""]))
  {
    assert QuotableWord("") by {
      QuotableIf("");
    }
    ScanQuotedKey([], [], "");
    assert [] + "['" + "" + "']" == "['']";
    assert [] + [""] == [""];
    TokenizeFromScan("['']", Scanner([""], [], false));
  }

  /** The scan of one more character of the expression, as the loop of `init` meets it. */
  lemma ScanPrefixStep(expression: string, start: nat, i: nat)
    requires start <= i < |expression|
    ensures ScanChars(expression[start..i + 1], start) == match ScanChars(expression[start..i], start)
      case Err(e) => Err(e)
      case Ok(st) => Step(st, expression[i], i)
  {
    assert expression[start..i + 1] == expression[start..i] + [expression[i]];
    ScanSnoc(expression[start..i], expression[i], start);
  }

  /** The loop of `init` run over positions `start` to `n - 1` of the expression, read by
      position as the loop reads it. */
  function ScanPrefix(expression: string, start: nat, n: nat): Result<Scanner, BadExpression>
    requires n <= |expression|
    decreases n
  {
    if n <= start then Ok(Scanner([], [], false))
    else match ScanPrefix(expression, start, n - 1)
      case Err(e) => Err(e)
      case Ok(st) => Step(st, expression[n - 1], n - 1)
  }

  /** Reading by position is the scan of the slice. */
  lemma {:induction false} ScanPrefixChars(expression: string, start: nat, n: nat)
    requires start <= n <= |expression|
    ensures ScanPrefix(expression, start, n) == ScanChars(expression[start..n], start)
    decreases n
  {
    if n == start {
      assert expression[start..n] == [];
    } else {
      ScanPrefixChars(expression, start, n - 1);
      ScanPrefixStep(expression, start, n - 1);
      var before := ScanPrefix(expression, start, n - 1);
      assert ScanPrefix(expression, start, n) == match before
        case Err(e) => Err(e)
        case Ok(st) => Step(st, expression[n - 1], n - 1);
    }
  }

  /** A character the loop of `init` rejects decides the outcome of `Tokenize`. */
  lemma ScanFails(expression: string, start: nat, i: nat, st: Scanner, e: BadExpression)
    requires start == BodyStart(expression) && start <= i < |expression|
    requires ScanPrefix(expression, start, i) == Ok(st)
    requires Step(st, expression[i], i) == Err(e)
    ensures Tokenize(expression) == Err(e)
  {
    ScanPrefixChars(expression, start, i);
    ScanPrefixStep(expression, start, i);
    ScanErrExtends(expression, start, i + 1);
  }

  /** `Tokenize` in terms of the loop's reading of the whole expression. */
  lemma TokenizeByPrefix(expression: string)
    ensures Tokenize(expression) == match ScanPrefix(expression, BodyStart(expression), |expression|)
      case Err(e) => Err(e)
      case Ok(st) =>
        if st.inBracket then Err(UnclosedOpen(|expression| - 1))
        else Ok(Path(StartsWithDollar(expression), Flush(st).parts))
  {
    ScanPrefixChars(expression, BodyStart(expression), |expression|);
    assert expression[BodyStart(expression)..|expression|] == expression[BodyStart(expression)..];
  }

  // ---------------------------------------------------------------- the object

  class BeanPath {
    /** `isStartWith$`. */
    var isStartWithDollar: bool
    /** `patternParts`. */
    var patternParts: seq<string>

    /** The state before `init` runs. */
    constructor ()
      ensures !isStartWithDollar && patternParts == []
    {
      isStartWithDollar := false;
      patternParts := [];
    }

    /** `init(expression)`: tokenize, storing the parts, or report the exception thrown.
        A leading `$` sets the flag even when the expression later proves bad. */
    method Init(expression: string) returns (error: Option<BadExpression>)
      modifies this
      ensures isStartWithDollar == (old(isStartWithDollar) || StartsWithDollar(expression))
      ensures Tokenize(expression).Ok? ==> error == None && patternParts == Tokenize(expression).value.parts
      ensures Tokenize(expression).Err? ==> error == Some(Tokenize(expression).error) && patternParts == old(patternParts)
    {
      var parts: seq<string> := [];
      var builder: string := "";
      var isNumStart := false;
      ghost var start := BodyStart(expression);
      var i := 0;
      while i < |expression|
        invariant 0 <= i <= |expression|
        invariant ScanPrefix(expression, start, i) == Ok(Scanner(parts, builder, isNumStart))
        invariant isStartWithDollar == (old(isStartWithDollar) || (i > 0 && StartsWithDollar(expression)))
        invariant patternParts == old(patternParts)
      {
        var c := expression[i];
        if i == 0 && c == '$' {
          isStartWithDollar := true;
          i := i + 1;
          continue;
        }
        ghost var st := Scanner(parts, builder, isNumStart);
        if IsSeparator(c) {
          if c == ']' {
            if !isNumStart {
              ScanFails(expression, start, i, st, UnmatchedClose(i));
              return Some(UnmatchedClose(i));
            }
            isNumStart := false;
          } else {
            if isNumStart {
              ScanFails(expression, start, i, st, UnclosedOpen(i));
              return Some(UnclosedOpen(i));
            } else if c == '[' {
              isNumStart := true;
            }
          }
          if |builder| > 0 {
            parts := parts + [UnWrapIfPossible(builder)];
          }
          builder := [];
        } else {
          builder := builder + [c];
        }
        i := i + 1;
      }
      TokenizeByPrefix(expression);
      if isNumStart {
        return Some(UnclosedOpen(|expression| - 1));
      }
      if |builder| > 0 {
        parts := parts + [UnWrapIfPossible(builder)];
      }
      patternParts := parts;
      error := None;
    }

    /**
     * The private `get(patternParts, bean, ignoreLast)`: follow the parts (all of them, or
     * all but the last when `ignoreLast`) from `bean`. `fieldValue` stands for the field
     * lookup (None for Java's `null`) and `isMatchName` for `BeanUtils.isMatchName`.
     * The fallback to the bean itself is offered at the first step only (see `Lookup`
     * for the loop as written, which keeps offering it until it is taken).
     */
    method Get<B>(parts: seq<string>, bean: B, ignoreLast: bool,
                  fieldValue: (B, string) -> Option<B>, isMatchName: (B, string) -> bool)
      returns (r: Option<B>)
      ensures r == LookupIntended(parts, bean, ignoreLast, isStartWithDollar, fieldValue, isMatchName)
    {
      var length := |parts|;
      if ignoreLast {
        length := length - 1;
      }
      var subBean := bean;
      var isFirst := true;
      var i := 0;
      while i < length
        invariant 0 <= i && (length >= 0 ==> i <= length)
        invariant i == 0 ==> isFirst && subBean == bean
        invariant i > 0 ==> !isFirst && Walk(parts, length, i, bean, subBean, false, isStartWithDollar, fieldValue, isMatchName)
                              == LookupIntended(parts, bean, ignoreLast, isStartWithDollar, fieldValue, isMatchName)
      {
        var next := fieldValue(subBean, parts[i]);
        if next.None? {
          if isFirst && !isStartWithDollar && isMatchName(bean, parts[i]) {
            subBean := bean;
          } else {
            return None;
          }
        } else {
          subBean := next.value;
        }
        isFirst := false;
        i := i + 1;
      }
      return Some(subBean);
    }
  }

  /** One more character after a failed scan changes nothing. */
  lemma ScanErrStep(s: string, c: char, offset: int)
    requires ScanChars(s, offset).Err?
    ensures ScanChars(s + [c], offset) == ScanChars(s, offset)
  {
    ScanSnoc(s, c, offset);
  }

  /** A scan that has failed stays failed with the same exception as more text follows. */
  lemma {:induction false} ScanErrExtends(expression: string, start: nat, n: nat)
    requires start <= n <= |expression|
    requires ScanChars(expression[start..n], start).Err?
    ensures ScanChars(expression[start..], start) == ScanChars(expression[start..n], start)
    ensures start == BodyStart(expression) ==> Tokenize(expression) == Err(ScanChars(expression[start..n], start).error)
    decreases |expression| - n
  {
    if n < |expression| {
      assert expression[start..n + 1] == expression[start..n] + [expression[n]];
      ScanErrStep(expression[start..n], expression[n], start);
      ScanErrExtends(expression, start, n + 1);
    } else {
      assert expression[start..n] == expression[start..];
    }
  }

  /** `BeanPath(expression)`: the parsed path object, or the exception its constructor throws. */
  method Create(expression: string) returns (r: Result<BeanPath, BadExpression>)
    ensures Tokenize(expression).Err? ==> r == Err(Tokenize(expression).error)
    ensures Tokenize(expression).Ok? ==>
      && r.Ok? && fresh(r.value)
      && r.value.isStartWithDollar == Tokenize(expression).value.startsWithDollar
      && r.value.patternParts == Tokenize(expression).value.parts
  {
    var path := new BeanPath();
    var error := path.Init(expression);
    if error.Some? {
      return Err(error.value);
    }
    return Ok(path);
  }

  // ---------------------------------------------------------------- the traversal

  /** The loop of `get` from step `i` (of `n`) with the current bean `sub`; `isFirst` says
      whether the fallback to the root bean is still available. */
  function Walk<B>(parts: seq<string>, n: int, i: nat, root: B, sub: B, isFirst: bool, startsWithDollar: bool,
                   fieldValue: (B, string) -> Option<B>, isMatchName: (B, string) -> bool): Option<B>
    requires n <= |parts|
    decreases n - i
  {
    if i >= n then Some(sub)
    else match fieldValue(sub, parts[i])
      case Some(next) => Walk(parts, n, i + 1, root, next, isFirst, startsWithDollar, fieldValue, isMatchName)
      case None =>
        if isFirst && !startsWithDollar && isMatchName(root, parts[i])
        then Walk(parts, n, i + 1, root, root, false, startsWithDollar, fieldValue, isMatchName)
        else None
  }

  /** `get(parts, bean, ignoreLast)` as a value. */
  function Lookup<B>(parts: seq<string>, bean: B, ignoreLast: bool, startsWithDollar: bool,
                     fieldValue: (B, string) -> Option<B>, isMatchName: (B, string) -> bool): Option<B>
  {
    Walk(parts, if ignoreLast then |parts| - 1 else |parts|, 0, bean, bean, true, startsWithDollar, fieldValue, isMatchName)
  }

  /** Plain field-by-field lookup, with no fallback: None at the first missing step. */
  function Follow<B>(parts: seq<string>, bean: B, fieldValue: (B, string) -> Option<B>): Option<B>
    decreases |parts|
  {
    if parts == [] then Some(bean)
    else match fieldValue(bean, parts[0])
      case Some(next) => Follow(parts[1..], next, fieldValue)
      case None => None
  }

  /** Without the fallback, the loop is plain lookup of the steps it visits. */
  lemma {:induction false} WalkStrict<B>(parts: seq<string>, n: int, i: nat, root: B, sub: B, startsWithDollar: bool,
                                         fieldValue: (B, string) -> Option<B>, isMatchName: (B, string) -> bool)
    requires n <= |parts| && i <= n
    ensures Walk(parts, n, i, root, sub, false, startsWithDollar, fieldValue, isMatchName) == Follow(parts[i..n], sub, fieldValue)
    decreases n - i
  {
    if i < n {
      assert parts[i..n][1..] == parts[i + 1..n];
      WalkStrict(parts, n, i + 1, root, sub, startsWithDollar, fieldValue, isMatchName);
      if fieldValue(sub, parts[i]).Some? {
        WalkStrict(parts, n, i + 1, root, fieldValue(sub, parts[i]).value, startsWithDollar, fieldValue, isMatchName);
      }
    }
  }

  /** Where plain lookup succeeds the fallback never fires, and with a leading `$` the
      traversal is exactly plain lookup. */
  lemma {:induction false} WalkFallback<B>(parts: seq<string>, n: int, i: nat, root: B, sub: B, isFirst: bool, startsWithDollar: bool,
                                            fieldValue: (B, string) -> Option<B>, isMatchName: (B, string) -> bool)
    requires n <= |parts| && i <= n
    ensures Follow(parts[i..n], sub, fieldValue).Some? || startsWithDollar || !isFirst ==>
      Walk(parts, n, i, root, sub, isFirst, startsWithDollar, fieldValue, isMatchName) == Follow(parts[i..n], sub, fieldValue)
    decreases n - i
  {
    if !isFirst {
      WalkStrict(parts, n, i, root, sub, startsWithDollar, fieldValue, isMatchName);
    } else if i < n {
      assert parts[i..n][1..] == parts[i + 1..n];
      match fieldValue(sub, parts[i])
      case Some(next) =>
        WalkFallback(parts, n, i + 1, root, next, isFirst, startsWithDollar, fieldValue, isMatchName);
      case None =>
    }
  }

  /** The traversal in terms of plain lookup: it visits the first `|parts|` parts, or one
      fewer with `ignoreLast`, and agrees with plain lookup whenever that succeeds or the
      expression began with `$`. */
  lemma LookupFollows<B>(parts: seq<string>, bean: B, ignoreLast: bool, startsWithDollar: bool,
                         fieldValue: (B, string) -> Option<B>, isMatchName: (B, string) -> bool)
    ensures var visited := Visited(parts, ignoreLast);
      Follow(visited, bean, fieldValue).Some? || startsWithDollar ==>
        Lookup(parts, bean, ignoreLast, startsWithDollar, fieldValue, isMatchName) == Follow(visited, bean, fieldValue)
  {
    var n := if ignoreLast then |parts| - 1 else |parts|;
    if n >= 0 {
      assert parts[0..n] == (if ignoreLast then parts[..|parts| - 1] else parts);
      WalkFallback(parts, n, 0, bean, bean, true, startsWithDollar, fieldValue, isMatchName);
    }
  }

  /** Skipping the last part is the same as looking the path up without it. */
  lemma IgnoreLastDropsLast<B>(parts: seq<string>, bean: B, startsWithDollar: bool,
                               fieldValue: (B, string) -> Option<B>, isMatchName: (B, string) -> bool)
    requires |parts| > 0
    ensures Lookup(parts, bean, true, startsWithDollar, fieldValue, isMatchName)
         == Lookup(parts[..|parts| - 1], bean, false, startsWithDollar, fieldValue, isMatchName)
  {
    WalkPrefix(parts, parts[..|parts| - 1], |parts| - 1, 0, bean, bean, true, startsWithDollar, fieldValue, isMatchName);
  }

  /** The loop only reads the parts it visits. */
  lemma {:induction false} WalkPrefix<B>(parts: seq<string>, prefix: seq<string>, n: int, i: nat, root: B, sub: B, isFirst: bool,
                                          startsWithDollar: bool, fieldValue: (B, string) -> Option<B>, isMatchName: (B, string) -> bool)
    requires n <= |prefix| <= |parts| && prefix == parts[..|prefix|]
    ensures Walk(parts, n, i, root, sub, isFirst, startsWithDollar, fieldValue, isMatchName)
         == Walk(prefix, n, i, root, sub, isFirst, startsWithDollar, fieldValue, isMatchName)
    decreases n - i
  {
    if i < n {
      assert parts[i] == prefix[i];
      WalkPrefix(parts, prefix, n, i + 1, root, sub, isFirst, startsWithDollar, fieldValue, isMatchName);
      WalkPrefix(parts, prefix, n, i + 1, root, root, false, startsWithDollar, fieldValue, isMatchName);
      if fieldValue(sub, parts[i]).Some? {
        WalkPrefix(parts, prefix, n, i + 1, root, fieldValue(sub, parts[i]).value, isFirst, startsWithDollar, fieldValue, isMatchName);
      }
    }
  }

  /** The traversal with the fallback to the root bean offered at the first step only,
      as the comment on the fallback and the name `isFirst` describe. */
  function LookupIntended<B>(parts: seq<string>, bean: B, ignoreLast: bool, startsWithDollar: bool,
                             fieldValue: (B, string) -> Option<B>, isMatchName: (B, string) -> bool): Option<B>
  {
    var n := if ignoreLast then |parts| - 1 else |parts|;
    if n <= 0 then Some(bean)
    else match fieldValue(bean, parts[0])
      case Some(next) => Walk(parts, n, 1, bean, next, false, startsWithDollar, fieldValue, isMatchName)
      case None =>
        if !startsWithDollar && isMatchName(bean, parts[0])
        then Walk(parts, n, 1, bean, bean, false, startsWithDollar, fieldValue, isMatchName)
        else None
  }

  /** The parts the traversal visits: all of them, or all but the last with `ignoreLast`. */
  function Visited(parts: seq<string>, ignoreLast: bool): seq<string>
  {
    if ignoreLast && |parts| > 0 then parts[..|parts| - 1] else if ignoreLast then [] else parts
  }

  /** The intended traversal is plain lookup, except that a first part the bean lacks but
      whose name the bean matches is skipped, and only when the expression has no `$`. */
  lemma LookupIntendedFollows<B>(parts: seq<string>, bean: B, ignoreLast: bool, startsWithDollar: bool,
                                 fieldValue: (B, string) -> Option<B>, isMatchName: (B, string) -> bool)
    ensures var v := Visited(parts, ignoreLast);
      LookupIntended(parts, bean, ignoreLast, startsWithDollar, fieldValue, isMatchName)
      == if v == [] then Some(bean)
         else match fieldValue(bean, v[0])
           case Some(next) => Follow(v[1..], next, fieldValue)
           case None => if !startsWithDollar && isMatchName(bean, v[0]) then Follow(v[1..], bean, fieldValue) else None
  {
    var n := if ignoreLast then |parts| - 1 else |parts|;
    var v := Visited(parts, ignoreLast);
    if n > 0 {
      assert v == parts[..n] && v[0] == parts[0];
      assert v[1..] == parts[1..n];
      WalkStrict(parts, n, 1, bean, bean, startsWithDollar, fieldValue, isMatchName);
      if fieldValue(bean, parts[0]).Some? {
        WalkStrict(parts, n, 1, bean, fieldValue(bean, parts[0]).value, startsWithDollar, fieldValue, isMatchName);
      }
    }
  }

  /** The loop as written and the intended traversal differ only when the first step
      succeeds: if it fails, both take the fallback there or give up. */
  lemma LookupAgreesWhenFirstFails<B>(parts: seq<string>, bean: B, ignoreLast: bool, startsWithDollar: bool,
                                      fieldValue: (B, string) -> Option<B>, isMatchName: (B, string) -> bool)
    requires var v := Visited(parts, ignoreLast); v == [] || fieldValue(bean, v[0]).None? || startsWithDollar
    ensures LookupIntended(parts, bean, ignoreLast, startsWithDollar, fieldValue, isMatchName)
         == Lookup(parts, bean, ignoreLast, startsWithDollar, fieldValue, isMatchName)
  {
    var n := if ignoreLast then |parts| - 1 else |parts|;
    if n > 0 {
      assert Visited(parts, ignoreLast)[0] == parts[0];
      if fieldValue(bean, parts[0]).Some? {
        WalkFallback(parts, n, 1, bean, fieldValue(bean, parts[0]).value, true, startsWithDollar, fieldValue, isMatchName);
        WalkStrict(parts, n, 1, bean, fieldValue(bean, parts[0]).value, startsWithDollar, fieldValue, isMatchName);
      }
    }
  }

  /** The loop as written takes the fallback at a later step: for `a.b` on a bean `0` whose
      field `a` is `1`, where `1` has no field `b` but the bean's name matches `b`, it
      returns the bean itself; the intended traversal returns nothing. */
  lemma LateFallback()
    ensures var fieldValue := (b: int, name: string) => if b == 0 && name == "a" then Some(1) else None;
      var isMatchName := (b: int, name: string) => name == "b";
      Lookup(["a", "b"], 0, false, false, fieldValue, isMatchName) == Some(0)
      && LookupIntended(["a", "b"], 0, false, false, fieldValue, isMatchName) == None
  {
    var fieldValue := (b: int, name: string) => if b == 0 && name == "a" then Some(1) else None;
    var isMatchName := (b: int, name: string) => name == "b";
    assert "b" != "a" by { assert "b"[0] != "a"[0]; }
    assert fieldValue(1, "b") == None;
    assert isMatchName(0, "b");
    assert Walk(["a", "b"], 2, 1, 0, 1, true, false, fieldValue, isMatchName) == Some(0);
    assert Walk(["a", "b"], 2, 1, 0, 1, false, false, fieldValue, isMatchName) == None;
  }

  /** Skipping the last part is the same as looking the path up without it. */
  lemma IntendedIgnoreLastDropsLast<B>(parts: seq<string>, bean: B, startsWithDollar: bool,
                                       fieldValue: (B, string) -> Option<B>, isMatchName: (B, string) -> bool)
    requires |parts| > 0
    ensures LookupIntended(parts, bean, true, startsWithDollar, fieldValue, isMatchName)
         == LookupIntended(parts[..|parts| - 1], bean, false, startsWithDollar, fieldValue, isMatchName)
  {
    LookupIntendedFollows(parts, bean, true, startsWithDollar, fieldValue, isMatchName);
    LookupIntendedFollows(parts[..|parts| - 1], bean, false, startsWithDollar, fieldValue, isMatchName);
  }
}
