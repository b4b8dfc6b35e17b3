/**
 * `parse_widthes` of visualize/visualize.py: a comma-separated list of tokens
 * `W` or `N*W` (ASCII decimal digits, leading zeros and zero allowed) becomes
 * the flat list of row widths, or the first token that does not match.
 */
module WidthSpec {
  import opened Wrappers
  import opened Sequences

  /** One token: `count` copies of `width`. */
  datatype Token = Token(count: nat, width: nat)

  predicate IsDigit(c: char) { '0' <= c <= '9' }

  /** `\d+`: a non-empty run of decimal digits. */
  predicate IsDigits(s: string)
  {
    |s| > 0 && forall i :: 0 <= i < |s| ==> IsDigit(s[i])
  }

  function DigitValue(c: char): nat
    requires IsDigit(c)
  {
    c as int - '0' as int
  }

  /** `int(s)` for a run of decimal digits. */
  function DigitsValue(s: string): nat
    requires forall i :: 0 <= i < |s| ==> IsDigit(s[i])
  {
    if s == [] then 0
    else 10 * DigitsValue(s[..|s| - 1]) + DigitValue(s[|s| - 1])
  }

  /** Like `int`, the reading ignores leading zeros: `"007"` is 7. */
  lemma {:induction false} LeadingZeroIgnored(s: string)
    requires forall i :: 0 <= i < |s| ==> IsDigit(s[i])
    ensures DigitsValue(['0'] + s) == DigitsValue(s)
  {
    var t := ['0'] + s;
    if s == [] {
      assert t[..|t| - 1] == [];
    } else {
      assert t[..|t| - 1] == ['0'] + s[..|s| - 1];
      LeadingZeroIgnored(s[..|s| - 1]);
    }
  }

  /** The shortest decimal spelling of n. */
  function Decimal(n: nat): (s: string)
    ensures IsDigits(s) && DigitsValue(s) == n
  {
    var d := ['0' + (n % 10) as char];
    if n < 10 then d
    else
      var s := Decimal(n / 10) + d;
      assert s[..|s| - 1] == Decimal(n / 10);
      s
  }

  /** `str.split(",")`: the pieces between commas; never empty. */
  function Split(s: string): (pieces: seq<string>)
    ensures |pieces| >= 1
    ensures forall i :: 0 <= i < |pieces| ==> ',' !in pieces[i]
    ensures Join(pieces) == s
  {
    if s == [] then [""]
    else
      var rest := Split(s[1..]);
      if s[0] == ',' then
        assert s == "," + Join(rest);
        [""] + rest
      else
        assert Join([[s[0]] + rest[0]] + rest[1..]) == [s[0]] + Join(rest);
        [[s[0]] + rest[0]] + rest[1..]
  }

  /** The inverse of Split: the pieces with a comma between neighbours. */
  function Join(pieces: seq<string>): string
  {
    if pieces == [] then []
    else if |pieces| == 1 then pieces[0]
    else pieces[0] + "," + Join(pieces[1..])
  }

  /** Splitting joined comma-free pieces gives the pieces back. */
  lemma {:induction false} SplitJoin(pieces: seq<string>)
    requires |pieces| >= 1
    requires forall i :: 0 <= i < |pieces| ==> ',' !in pieces[i]
    ensures Split(Join(pieces)) == pieces
  {
    if |pieces| == 1 {
      SplitNoComma(pieces[0]);
    } else {
      SplitJoin(pieces[1..]);
      SplitPrefix(pieces[0], Join(pieces[1..]));
    }
  }

  lemma {:induction false} SplitNoComma(s: string)
    requires ',' !in s
    ensures Split(s) == [s]
  {
  }

  lemma {:induction false} SplitPrefix(head: string, tail: string)
    requires ',' !in head
    ensures Split(head + "," + tail) == [head] + Split(tail)
  {
    if head == [] {
      assert head + "," + tail == [','] + tail;
      assert ([','] + tail)[1..] == tail;
    } else {
      assert (head + "," + tail)[1..] == head[1..] + "," + tail;
      SplitPrefix(head[1..], tail);
      assert [head[0]] + head[1..] == head;
    }
  }

  /** The index of the first '*' in t, or |t| when there is none. */
  function StarIndex(t: string): (i: nat)
    ensures i <= |t|
    ensures i < |t| ==> t[i] == '*'
    ensures forall j :: 0 <= j < i ==> t[j] != '*'
  {
    if t == [] then 0
    else if t[0] == '*' then 0
    else 1 + StarIndex(t[1..])
  }

  /** `re.fullmatch(r"((\d+)\*)?(\d+)", t)`, with the count defaulting to 1. */
  function ParseToken(t: string): Option<Token>
  {
    var i := StarIndex(t);
    if i == |t| then
      if IsDigits(t) then Some(Token(1, DigitsValue(t))) else None
    else if IsDigits(t[..i]) && IsDigits(t[i + 1..]) then
      Some(Token(DigitsValue(t[..i]), DigitsValue(t[i + 1..])))
    else None
  }

  /** The regular expression's reading of a token, stated without searching for the star. */
  ghost predicate Denotes(t: string, tok: Token)
  {
    || (IsDigits(t) && tok == Token(1, DigitsValue(t)))
    || (exists i :: 0 <= i < |t| && t[i] == '*' && IsDigits(t[..i]) && IsDigits(t[i + 1..])
                    && tok == Token(DigitsValue(t[..i]), DigitsValue(t[i + 1..])))
  }

  /** A token parses to exactly the value the grammar gives it, and fails exactly when it has none. */
  lemma ParseTokenDenotes(t: string, tok: Token)
    ensures ParseToken(t) == Some(tok) <==> Denotes(t, tok)
  {
  }

  /** A token that is not in the grammar has no reading at all. */
  lemma ParseTokenFails(t: string)
    ensures ParseToken(t).None? <==> forall tok :: !Denotes(t, tok)
  {
    if ParseToken(t).Some? {
      ParseTokenDenotes(t, ParseToken(t).value);
    }
    forall tok | Denotes(t, tok) ensures ParseToken(t).Some? {
      ParseTokenDenotes(t, tok);
    }
  }

  /** The widths a list of parsed tokens stands for. */
  function Expand(toks: seq<Token>): (ws: seq<nat>)
  {
    if toks == [] then [] else Repeat(toks[0].width, toks[0].count) + Expand(toks[1..])
  }

  function Counts(toks: seq<Token>): seq<nat>
  {
    if toks == [] then [] else [toks[0].count] + Counts(toks[1..])
  }

  /** The expansion holds exactly the sum of the token counts. */
  lemma {:induction false} ExpandLength(toks: seq<Token>)
    ensures |Expand(toks)| == Sum(Counts(toks))
  {
    if toks != [] {
      ExpandLength(toks[1..]);
    }
  }

  /** Expanding a concatenation expands each part in order. */
  lemma {:induction false} ExpandAppend(a: seq<Token>, b: seq<Token>)
    ensures Expand(a + b) == Expand(a) + Expand(b)
  {
    if a == [] {
      assert a + b == b;
    } else {
      assert (a + b)[1..] == a[1..] + b;
      ExpandAppend(a[1..], b);
    }
  }

  /** Parse each piece; the first piece that fails is the error. */
  function ParseTokens(pieces: seq<string>): Result<seq<nat>, string>
  {
    if pieces == [] then Success([])
    else match ParseToken(pieces[0])
      case None => Failure(pieces[0])
      case Some(tok) =>
        match ParseTokens(pieces[1..])
        case Failure(e) => Failure(e)
        case Success(ws) => Success(Repeat(tok.width, tok.count) + ws)
  }

  /** The whole parse as one function of the input string. */
  function ParseSpec(s: string): Result<seq<nat>, string>
  {
    ParseTokens(Split(s))
  }

  /** `ws` followed by the outcome r, or r's error. */
  function Prepend(ws: seq<nat>, r: Result<seq<nat>, string>): Result<seq<nat>, string>
  {
    match r
    case Failure(e) => Failure(e)
    case Success(rest) => Success(ws + rest)
  }

  lemma PrependNothing(r: Result<seq<nat>, string>)
    ensures Prepend([], r) == r
  {
    if r.Success? {
      assert [] + r.value == r.value;
    }
  }

  lemma PrependTwice(a: seq<nat>, b: seq<nat>, r: Result<seq<nat>, string>)
    ensures Prepend(a, Prepend(b, r)) == Prepend(a + b, r)
  {
    if r.Success? {
      assert a + (b + r.value) == (a + b) + r.value;
    }
  }

  /**
   * `parse_widthes`: split on commas, then for each piece either stop with the
   * piece as the error or extend the list with `count * [width]`.
   */
  method ParseWidths(widthstr: string) returns (r: Result<seq<nat>, string>)
    ensures r == ParseSpec(widthstr)
  {
    var pieces := Split(widthstr);
    var widths: seq<nat> := [];
    PrependNothing(ParseTokens(pieces));
    assert pieces[0..] == pieces;
    for i := 0 to |pieces|
      invariant ParseTokens(pieces) == Prepend(widths, ParseTokens(pieces[i..]))
    {
      assert pieces[i..][1..] == pieces[i + 1..];
      var tok := ParseToken(pieces[i]);
      if tok.None? {
        return Failure(pieces[i]);
      }
      var more := Repeat(tok.value.width, tok.value.count);
      PrependTwice(widths, more, ParseTokens(pieces[i + 1..]));
      widths := widths + more;
    }
    assert pieces[|pieces|..] == [] && widths + [] == widths;
    return Success(widths);
  }

  /**
   * Parsing fails exactly when some piece is outside the grammar, and then the
   * error is the first such piece: every earlier piece parses.
   */
  lemma {:induction false} ParseTokensFailure(pieces: seq<string>)
    ensures ParseTokens(pieces).Failure? <==> exists i :: 0 <= i < |pieces| && ParseToken(pieces[i]).None?
    ensures ParseTokens(pieces).Failure? ==>
      exists i :: 0 <= i < |pieces| && pieces[i] == ParseTokens(pieces).error && ParseToken(pieces[i]).None?
                  && forall j :: 0 <= j < i ==> ParseToken(pieces[j]).Some?
  {
    if pieces != [] {
      ParseTokensFailure(pieces[1..]);
      assert forall i :: 1 <= i < |pieces| ==> pieces[i] == pieces[1..][i - 1];
      if ParseToken(pieces[0]).Some? && ParseTokens(pieces[1..]).Failure? {
        var i :| 0 <= i < |pieces[1..]| && pieces[1..][i] == ParseTokens(pieces[1..]).error
                 && ParseToken(pieces[1..][i]).None?
                 && forall j :: 0 <= j < i ==> ParseToken(pieces[1..][j]).Some?;
        assert pieces[i + 1] == ParseTokens(pieces).error && ParseToken(pieces[i + 1]).None?;
        assert forall j :: 1 <= j < i + 1 ==> ParseToken(pieces[j]).Some?;
      }
      if ParseToken(pieces[0]).Some? && ParseTokens(pieces[1..]).Success? {
        assert forall i :: 1 <= i < |pieces| ==> ParseToken(pieces[i]).Some?;
      }
    }
  }

  /** The tokens of a list of pieces that all parse. */
  function TokensOf(pieces: seq<string>): seq<Token>
    requires forall i :: 0 <= i < |pieces| ==> ParseToken(pieces[i]).Some?
  {
    if pieces == [] then [] else [ParseToken(pieces[0]).value] + TokensOf(pieces[1..])
  }

  /**
   * When every piece parses, the widths are each token's `count` copies of its
   * `width`, in token order, and their number is the sum of the counts.
   */
  lemma {:induction false} ParseTokensSuccess(pieces: seq<string>)
    requires forall i :: 0 <= i < |pieces| ==> ParseToken(pieces[i]).Some?
    ensures ParseTokens(pieces) == Success(Expand(TokensOf(pieces)))
    ensures |ParseTokens(pieces).value| == Sum(Counts(TokensOf(pieces)))
  {
    if pieces != [] {
      ParseTokensSuccess(pieces[1..]);
    }
    ExpandLength(TokensOf(pieces));
  }

  /** `N*W` spelled in decimal. */
  function FormatToken(tok: Token): string
  {
    Decimal(tok.count) + "*" + Decimal(tok.width)
  }

  function FormatTokens(toks: seq<Token>): seq<string>
  {
    if toks == [] then [] else [FormatToken(toks[0])] + FormatTokens(toks[1..])
  }

  /** A spelled-out token reads back as itself. */
  lemma FormatTokenRoundTrip(tok: Token)
    ensures ParseToken(FormatToken(tok)) == Some(tok)
  {
    var n, w := Decimal(tok.count), Decimal(tok.width);
    var t := FormatToken(tok);
    assert t[..|n|] == n && t[|n|] == '*' && t[|n| + 1..] == w;
    ParseTokenDenotes(t, tok);
  }

  /** A bare `W` reads as one copy of W. */
  lemma BareTokenRoundTrip(w: nat)
    ensures ParseToken(Decimal(w)) == Some(Token(1, w))
  {
  }

  lemma {:induction false} FormatTokensRoundTrip(toks: seq<Token>)
    ensures |FormatTokens(toks)| == |toks|
    ensures forall i :: 0 <= i < |toks| ==> ParseToken(FormatTokens(toks)[i]).Some?
    ensures forall i :: 0 <= i < |toks| ==> ',' !in FormatTokens(toks)[i]
    ensures ParseTokens(FormatTokens(toks)) == Success(Expand(toks))
  {
    if toks != [] {
      var rest := FormatTokens(toks[1..]);
      FormatTokensRoundTrip(toks[1..]);
      FormatTokenRoundTrip(toks[0]);
      FormatTokenNoComma(toks[0]);
      assert FormatTokens(toks) == [FormatToken(toks[0])] + rest;
      assert FormatTokens(toks)[1..] == rest;
      assert forall i :: 1 <= i < |toks| ==> FormatTokens(toks)[i] == rest[i - 1];
    }
  }

  lemma FormatTokenNoComma(tok: Token)
    ensures ',' !in FormatToken(tok)
  {
  }

  /** Writing any non-empty token list out as `N*W,N*W,...` and parsing it gives its expansion. */
  lemma SpecRoundTrip(toks: seq<Token>)
    requires toks != []
    ensures ParseSpec(Join(FormatTokens(toks))) == Success(Expand(toks))
  {
    FormatTokensRoundTrip(toks);
    SplitJoin(FormatTokens(toks));
  }

  /** Zero is a valid count and a valid width; an empty piece is not a token. */
  lemma ZeroAndEmptyTokens()
    ensures ParseToken("0") == Some(Token(1, 0))
    ensures ParseToken("0*5") == Some(Token(0, 5))
    ensures ParseToken("") == None
    ensures ParseToken("2*") == None
    ensures ParseToken("2**5") == None
  {
  }
}
