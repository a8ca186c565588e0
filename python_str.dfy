/** The parts of Python's `str` that the modelled code relies on: whitespace,
    `split()` with and without `maxsplit=1`, `lstrip()`, `strip()` and `str(int)`. */
module PyStr {

  /** `c.isspace()` as CPython's `str.split()` and `str.strip()` test it. */
  predicate IsSpace(c: char)
  {
    || ('\t' <= c <= '\r')
    || ('\U{1C}' <= c <= ' ')
    || c == '\U{85}' || c == '\U{A0}' || c == '\U{1680}'
    || ('\U{2000}' <= c <= '\U{200A}')
    || c == '\U{2028}' || c == '\U{2029}' || c == '\U{202F}' || c == '\U{205F}' || c == '\U{3000}'
  }

  /** Every character of `s` is whitespace (true of the empty string). */
  predicate AllSpace(s: string)
  {
    s == [] || (IsSpace(s[0]) && AllSpace(s[1..]))
  }

  /** No character of `s` is whitespace. */
  predicate NoSpace(s: string)
  {
    s == [] || (!IsSpace(s[0]) && NoSpace(s[1..]))
  }

  /** A concatenation is all whitespace exactly when both parts are. */
  lemma {:induction false} AllSpaceAppend(a: string, b: string)
    ensures AllSpace(a + b) <==> AllSpace(a) && AllSpace(b)
  {
    if a == [] {
      assert a + b == b;
    } else {
      assert (a + b)[1..] == a[1..] + b;
      AllSpaceAppend(a[1..], b);
    }
  }

  /** `s` is empty or starts with a non-whitespace character. */
  predicate StartsSolid(s: string)
  {
    s == [] || !IsSpace(s[0])
  }

  /** `s.lstrip()`: `s` without its leading whitespace. */
  function LStrip(s: string): (r: string)
    ensures |r| <= |s| && r == s[|s| - |r|..]
    ensures StartsSolid(r)
  {
    if s != [] && IsSpace(s[0]) then LStrip(s[1..]) else s
  }

  /** What `lstrip()` removes is whitespace. */
  lemma {:induction false} LStripDropsSpace(s: string)
    ensures AllSpace(s[..|s| - |LStrip(s)|])
  {
    if s != [] && IsSpace(s[0]) {
      LStripDropsSpace(s[1..]);
      var p := s[1..][..|s| - 1 - |LStrip(s[1..])|];
      assert s[..|s| - |LStrip(s)|] == [s[0]] + p;
      AllSpaceAppend([s[0]], p);
    } else {
      assert s[..|s| - |LStrip(s)|] == [];
    }
  }

  /** `s.rstrip()`: `s` without its trailing whitespace. */
  function RStrip(s: string): (r: string)
    ensures |r| <= |s| && r == s[..|r|]
    ensures r == [] || !IsSpace(r[|r| - 1])
  {
    if s != [] && IsSpace(s[|s| - 1]) then RStrip(s[..|s| - 1]) else s
  }

  /** `s.strip()`. */
  function Strip(s: string): string
  {
    RStrip(LStrip(s))
  }

  /** The length of the run of non-whitespace characters `s` starts with. */
  function TokenLength(s: string): (n: nat)
    ensures n <= |s|
    ensures n == |s| || IsSpace(s[n])
    ensures StartsSolid(s) && s != [] ==> n > 0
  {
    if s != [] && !IsSpace(s[0]) then 1 + TokenLength(s[1..]) else 0
  }

  /** The token `TokenLength` measures holds no whitespace. */
  lemma {:induction false} TokenHasNoSpace(s: string)
    ensures NoSpace(s[..TokenLength(s)])
  {
    if s != [] && !IsSpace(s[0]) {
      TokenHasNoSpace(s[1..]);
      assert s[..TokenLength(s)] == [s[0]] + s[1..][..TokenLength(s[1..])];
    }
  }

  /** `s.split()`: the maximal runs of non-whitespace characters, in order. */
  function Split(s: string): seq<string>
    decreases |s|
  {
    var t := LStrip(s);
    if t == [] then []
    else
      var n := TokenLength(t);
      [t[..n]] + Split(t[n..])
  }

  /** `s.split(maxsplit=1)`: at most one split. The first element is the first
      token; the second, when present, is the rest of the line after the
      whitespace that follows that token, trailing whitespace included. */
  function SplitOnce(s: string): seq<string>
  {
    var t := LStrip(s);
    if t == [] then []
    else
      var n := TokenLength(t);
      var rest := LStrip(t[n..]);
      if rest == [] then [t[..n]] else [t[..n], rest]
  }

  /** `sep.join(tokens)`. */
  function Join(tokens: seq<string>, sep: string): string
  {
    if tokens == [] then []
    else if |tokens| == 1 then tokens[0]
    else tokens[0] + sep + Join(tokens[1..], sep)
  }

  /** The concatenation of `tokens`. */
  function Concat(tokens: seq<string>): string
  {
    if tokens == [] then [] else tokens[0] + Concat(tokens[1..])
  }

  /** `s` with every whitespace character removed. */
  function RemoveSpace(s: string): string
  {
    if s == [] then []
    else (if IsSpace(s[0]) then [] else [s[0]]) + RemoveSpace(s[1..])
  }

  lemma {:induction false} LStripOfSpacePrefix(lead: string, t: string)
    requires AllSpace(lead) && StartsSolid(t)
    ensures LStrip(lead + t) == t
  {
    if lead == [] {
      assert lead + t == t;
    } else {
      assert (lead + t)[1..] == lead[1..] + t;
      LStripOfSpacePrefix(lead[1..], t);
    }
  }

  lemma {:induction false} TokenLengthOfToken(tok: string, tail: string)
    requires NoSpace(tok)
    requires tail == [] || IsSpace(tail[0])
    ensures TokenLength(tok + tail) == |tok|
  {
    if tok == [] {
      assert tok + tail == tail;
    } else {
      assert (tok + tail)[1..] == tok[1..] + tail;
      TokenLengthOfToken(tok[1..], tail);
    }
  }

  /** Every token `split()` returns is non-empty and free of whitespace. */
  lemma {:induction false} SplitTokens(s: string)
    ensures forall i :: 0 <= i < |Split(s)| ==> Split(s)[i] != [] && NoSpace(Split(s)[i])
    decreases |s|
  {
    var t := LStrip(s);
    if t != [] {
      var n := TokenLength(t);
      var more := Split(t[n..]);
      TokenHasNoSpace(t);
      SplitTokens(t[n..]);
      SplitOfStripped(s, t, n);
      var r := [t[..n]] + more;
      assert Split(s) == r;
      assert t[0] == t[..n][0];
      forall i | 0 <= i < |r| ensures r[i] != [] && NoSpace(r[i]) {
        if i > 0 {
          assert r[i] == more[i - 1];
        }
      }
    }
  }

  /** `split(maxsplit=1)` is empty exactly on all-whitespace strings. */
  lemma SplitOnceEmptyIffBlank(s: string)
    ensures SplitOnce(s) == [] <==> AllSpace(s)
  {
    var t := LStrip(s);
    LStripDropsSpace(s);
    var lead := s[..|s| - |t|];
    assert s == lead + t;
    AllSpaceAppend(lead, t);
  }

  /** `split()` is empty exactly on all-whitespace strings. */
  lemma SplitEmptyIffBlank(s: string)
    ensures Split(s) == [] <==> AllSpace(s)
  {
    var t := LStrip(s);
    LStripDropsSpace(s);
    var lead := s[..|s| - |t|];
    assert s == lead + t;
    AllSpaceAppend(lead, t);
  }

  /** Reading `s` as leading whitespace, a token, a gap and the rest of the line
      determines `split(maxsplit=1)`: when there is more after the token, that
      rest (which starts with a non-whitespace character) is the second element. */
  lemma {:induction false} SplitOnceOfParts(lead: string, tok: string, gap: string, rest: string)
    requires AllSpace(lead) && tok != [] && NoSpace(tok) && AllSpace(gap)
    requires rest == [] || (gap != [] && !IsSpace(rest[0]))
    ensures SplitOnce(lead + tok + gap + rest) == if rest == [] then [tok] else [tok, rest]
  {
    var t := tok + (gap + rest);
    assert lead + tok + gap + rest == lead + t;
    LStripOfSpacePrefix(lead, t);
    TokenLengthOfToken(tok, gap + rest);
    LStripOfSpacePrefix(gap, rest);
    SplitOnceOfStripped(lead + t, t, |tok|);
  }

  lemma SplitOnceOfStripped(s: string, t: string, n: nat)
    requires LStrip(s) == t && t != [] && TokenLength(t) == n
    ensures SplitOnce(s) == if LStrip(t[n..]) == [] then [t[..n]] else [t[..n], LStrip(t[n..])]
  {
  }

  /** A single token splits into itself. */
  lemma SplitOnceOfToken(tok: string)
    requires tok != [] && NoSpace(tok)
    ensures SplitOnce(tok) == [tok]
  {
    var e: string := [];
    SplitOnceOfParts(e, tok, e, e);
    assert e + tok + e + e == tok;
  }

  /** `strip()` leaves a string without whitespace unchanged. */
  lemma StripOfToken(tok: string)
    requires NoSpace(tok)
    ensures Strip(tok) == tok
  {
    if tok != [] {
      assert !IsSpace(tok[0]);
      assert !IsSpace(tok[|tok| - 1]);
    }
  }

  lemma {:induction false} SplitOfTokenThen(tok: string, sep: string, tail: string)
    requires tok != [] && NoSpace(tok) && sep != [] && AllSpace(sep) && StartsSolid(tail)
    ensures Split(tok + sep + tail) == [tok] + Split(tail)
  {
    var t := tok + (sep + tail);
    assert tok + sep + tail == t;
    LStripOfSpacePrefix([], t);
    assert [] + t == t;
    TokenLengthOfToken(tok, sep + tail);
    SplitOfStripped(t, t, |tok|);
    assert t[..|tok|] == tok;
    assert t[|tok|..] == sep + tail;
    SplitOfSpacePrefix(sep, tail);
  }

  lemma SplitOfStripped(s: string, t: string, n: nat)
    requires LStrip(s) == t && t != [] && TokenLength(t) == n
    ensures Split(s) == [t[..n]] + Split(t[n..])
  {
  }

  lemma SplitOfSpacePrefix(lead: string, t: string)
    requires AllSpace(lead) && StartsSolid(t)
    ensures Split(lead + t) == Split(t)
  {
    LStripOfSpacePrefix(lead, t);
    LStripOfSpacePrefix([], t);
    assert [] + t == t;
    SplitOfSame(lead + t, t);
  }

  lemma SplitOfSame(s: string, t: string)
    requires LStrip(s) == LStrip(t)
    ensures Split(s) == Split(t)
  {
  }

  lemma SplitOfToken(tok: string)
    requires tok != [] && NoSpace(tok)
    ensures Split(tok) == [tok]
  {
    LStripOfSpacePrefix([], tok);
    assert [] + tok == tok;
    TokenLengthOfToken(tok, []);
    assert tok + [] == tok;
    assert tok[|tok|..] == [];
  }

  /** `split()` undoes `join` with a whitespace separator, for tokens that are
      non-empty and contain no whitespace. */
  lemma {:induction false} SplitJoin(tokens: seq<string>, sep: string)
    requires sep != [] && AllSpace(sep)
    requires forall i :: 0 <= i < |tokens| ==> tokens[i] != [] && NoSpace(tokens[i])
    ensures Split(Join(tokens, sep)) == tokens
  {
    if tokens == [] {
    } else if |tokens| == 1 {
      SplitOfToken(tokens[0]);
    } else {
      var head, more := tokens[0], tokens[1..];
      assert tokens == [head] + more;
      var tail := Join(more, sep);
      assert Join(tokens, sep) == head + sep + tail;
      JoinStartsSolid(more, sep);
      SplitOfTokenThen(head, sep, tail);
      SplitJoin(more, sep);
    }
  }

  lemma {:induction false} JoinStartsSolid(tokens: seq<string>, sep: string)
    requires forall i :: 0 <= i < |tokens| ==> tokens[i] != [] && NoSpace(tokens[i])
    ensures StartsSolid(Join(tokens, sep))
  {
    if |tokens| == 1 {
      assert !IsSpace(tokens[0][0]);
    } else if |tokens| > 1 {
      assert (tokens[0] + sep + Join(tokens[1..], sep))[0] == tokens[0][0];
      assert !IsSpace(tokens[0][0]);
    }
  }

  lemma {:induction false} RemoveSpaceAppend(a: string, b: string)
    ensures RemoveSpace(a + b) == RemoveSpace(a) + RemoveSpace(b)
  {
    if a == [] {
      assert a + b == b;
    } else {
      assert (a + b)[0] == a[0];
      assert (a + b)[1..] == a[1..] + b;
      RemoveSpaceAppend(a[1..], b);
    }
  }

  lemma {:induction false} RemoveSpaceOfSpace(s: string)
    requires AllSpace(s)
    ensures RemoveSpace(s) == []
  {
    if s != [] {
      RemoveSpaceOfSpace(s[1..]);
    }
  }

  lemma {:induction false} RemoveSpaceOfNoSpace(s: string)
    requires NoSpace(s)
    ensures RemoveSpace(s) == s
  {
    if s != [] {
      RemoveSpaceOfNoSpace(s[1..]);
      assert s == [s[0]] + s[1..];
    }
  }

  /** `split()` drops exactly the whitespace: gluing its tokens back together
      gives the input with every whitespace character removed. */
  lemma {:induction false} SplitKeepsAllText(s: string)
    ensures Concat(Split(s)) == RemoveSpace(s)
    decreases |s|
  {
    var t := LStrip(s);
    RemoveSpaceOfLStrip(s);
    if t == [] {
      assert Split(s) == [];
    } else {
      var n := TokenLength(t);
      RemoveSpaceOfTokenLength(t);
      SplitKeepsAllText(t[n..]);
      SplitOfStripped(s, t, n);
      var r := [t[..n]] + Split(t[n..]);
      assert r[1..] == Split(t[n..]);
      assert Concat(r) == t[..n] + Concat(Split(t[n..]));
    }
  }

  lemma RemoveSpaceOfLStrip(s: string)
    ensures RemoveSpace(s) == RemoveSpace(LStrip(s))
  {
    var t := LStrip(s);
    var lead := s[..|s| - |t|];
    LStripDropsSpace(s);
    assert s == lead + t;
    RemoveSpaceAppend(lead, t);
    RemoveSpaceOfSpace(lead);
  }

  lemma RemoveSpaceOfTokenLength(t: string)
    ensures RemoveSpace(t) == t[..TokenLength(t)] + RemoveSpace(t[TokenLength(t)..])
  {
    var n := TokenLength(t);
    assert t == t[..n] + t[n..];
    RemoveSpaceAppend(t[..n], t[n..]);
    TokenHasNoSpace(t);
    RemoveSpaceOfNoSpace(t[..n]);
  }

  /** The decimal digits of `n`, most significant first. */
  function NatToString(n: nat): (r: string)
    ensures r != []
    ensures forall i :: 0 <= i < |r| ==> '0' <= r[i] <= '9'
  {
    var d := [('0' as int + n % 10) as char];
    if n < 10 then d else NatToString(n / 10) + d
  }

  /** `str(i)` for a Python `int`. */
  function IntToString(i: int): (r: string)
    ensures r != []
  {
    if i < 0 then "-" + NatToString(-i) else NatToString(i)
  }

  /** The value of a string of decimal digits. */
  function ParseDigits(s: string): int
  {
    if s == [] then 0 else ParseDigits(s[..|s| - 1]) * 10 + (s[|s| - 1] as int - '0' as int)
  }

  /** `int(s)` for the strings that `str(i)` produces. */
  function ParseInt(s: string): int
  {
    if s != [] && s[0] == '-' then -ParseDigits(s[1..]) else ParseDigits(s)
  }

  lemma {:induction false} ParseNatToString(n: nat)
    ensures ParseDigits(NatToString(n)) == n
  {
    var d := [('0' as int + n % 10) as char];
    if n < 10 {
      assert d[..0] == [];
    } else {
      ParseNatToString(n / 10);
      var r := NatToString(n / 10) + d;
      assert r[..|r| - 1] == NatToString(n / 10);
    }
  }

  /** `int(str(i)) == i`. */
  lemma IntToStringRoundTrip(i: int)
    ensures ParseInt(IntToString(i)) == i
  {
    if i < 0 {
      ParseNatToString(-i);
      assert ("-" + NatToString(-i))[1..] == NatToString(-i);
    } else {
      ParseNatToString(i);
    }
  }

  /** The quote `repr` puts around `s`: `"` when `s` holds a `'` and no `"`,
      otherwise `'`. */
  function ReprQuote(s: string): char
  {
    if '\'' in s && '"' !in s then '"' else '\''
  }

  /** How `repr` writes one character inside quotes `q`. */
  function ReprChar(c: char, q: char): string
  {
    if c == '\\' then "\\\\"
    else if c == q then ['\\', c]
    else if c == '\n' then "\\n"
    else if c == '\r' then "\\r"
    else if c == '\t' then "\\t"
    else [c]
  }

  /** The characters of `s` as `repr` writes them inside quotes `q`. */
  function ReprBody(s: string, q: char): (r: string)
    ensures |r| >= |s|
  {
    if s == [] then [] else ReprChar(s[0], q) + ReprBody(s[1..], q)
  }

  /** `repr(s)` for a `str`. */
  function Repr(s: string): (r: string)
    ensures |r| >= 2 && r[0] == r[|r| - 1] == ReprQuote(s)
  {
    [ReprQuote(s)] + ReprBody(s, ReprQuote(s)) + [ReprQuote(s)]
  }

  /** A printable ASCII character other than a quote or a backslash: one
      Python's `repr` writes as itself inside either quote. */
  predicate PlainChar(c: char)
  {
    ' ' <= c <= '~' && c != '\\' && c != '\'' && c != '"'
  }

  /** Characters that need no escape are copied unchanged. */
  lemma {:induction false} ReprBodyOfPlain(s: string, q: char)
    requires forall i :: 0 <= i < |s| ==> PlainChar(s[i])
    requires q == '\'' || q == '"'
    ensures ReprBody(s, q) == s
  {
    if s != [] {
      ReprBodyOfPlain(s[1..], q);
      assert s == [s[0]] + s[1..];
    }
  }

  /** `repr` of a string with nothing to escape is the string in single quotes. */
  lemma ReprOfPlain(s: string)
    requires forall i :: 0 <= i < |s| ==> PlainChar(s[i])
    ensures Repr(s) == "'" + s + "'"
  {
    ReprBodyOfPlain(s, '\'');
  }
}
