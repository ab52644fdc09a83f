/** The request text the calculator client writes and the server reads back with parseInput
    (server.c:54-72): "{clientPID} {num1} {operation} {num2}", split with strtok on spaces
    and converted with atoi. Only the numerals this protocol uses, an optional sign followed
    by decimal digits, are given their C meaning. */
module Protocol {
  import opened Wrappers
  import opened IntText

  datatype Request = Request(clientPid: int, num1: int, operation: int, num2: int)

  /** The leading run of non-space characters of s. */
  function Word(s: string): (w: string)
    ensures |w| <= |s| && w == s[..|w|]
    ensures forall k :: 0 <= k < |w| ==> w[k] != ' '
    ensures |w| < |s| ==> s[|w|] == ' '
  {
    if |s| == 0 || s[0] == ' ' then [] else [s[0]] + Word(s[1..])
  }

  /** The tokens successive strtok(..., " ") calls return: the maximal runs of non-space
      characters, in order; runs of spaces separate tokens and never produce empty ones. */
  function Tokens(s: string): (r: seq<string>)
    ensures forall i :: 0 <= i < |r| ==> |r[i]| > 0 && forall k :: 0 <= k < |r[i]| ==> r[i][k] != ' '
    ensures (forall k :: 0 <= k < |s| ==> s[k] == ' ') <==> r == []
    ensures (|s| > 0 && forall k :: 0 <= k < |s| ==> s[k] != ' ') ==> r == [s]
    decreases |s|
  {
    if |s| == 0 then []
    else if s[0] == ' ' then Tokens(s[1..])
    else
      var w := Word(s);
      assert (forall k :: 0 <= k < |s| ==> s[k] != ' ') ==> w == s && s[|w|..] == [];
      [w] + Tokens(s[|w|..])
  }

  /** The leading decimal digits of s. */
  function LeadingDigits(s: string): (d: string)
    ensures |d| <= |s| && d == s[..|d|]
    ensures forall k :: 0 <= k < |d| ==> IsDigit(d[k])
    ensures |d| < |s| ==> !IsDigit(s[|d|])
  {
    if |s| == 0 || !IsDigit(s[0]) then [] else [s[0]] + LeadingDigits(s[1..])
  }

  /** atoi on a token: an optional sign, then the value of the leading digits. */
  function Atoi(token: string): (r: int)
    ensures |token| == 0 ==> r == 0
    ensures r < 0 ==> |token| > 0 && token[0] == '-'
    ensures |token| > 0 && token[0] == '-' ==> r <= 0
    ensures (forall k :: 0 <= k < |token| ==> IsDigit(token[k])) ==> r == ParseNat(token)
  {
    assert (forall k :: 0 <= k < |token| ==> IsDigit(token[k])) ==> LeadingDigits(token) == token;
    if |token| > 0 && token[0] == '-' then -(ParseNat(LeadingDigits(token[1..])) as int)
    else if |token| > 0 && token[0] == '+' then ParseNat(LeadingDigits(token[1..]))
    else ParseNat(LeadingDigits(token))
  }

  /** parseInput: the first four tokens, converted. With fewer than four tokens the source
      passes a null token to atoi; the model reports that as None. Tokens after the fourth
      are ignored. */
  function ParseInput(buffer: string): (r: Option<Request>)
    ensures r.Some? <==> |Tokens(buffer)| >= 4
  {
    var t := Tokens(buffer);
    if |t| < 4 then None
    else Some(Request(Atoi(t[0]), Atoi(t[1]), Atoi(t[2]), Atoi(t[3])))
  }

  /** The numeral of an integer in this protocol: intToStr's digits, after a minus sign for a
      negative number. */
  function Show(n: int): string
  {
    if n < 0 then "-" + IntStr(-n) else IntStr(n)
  }

  /** The request text for a request. */
  function Format(r: Request): string
  {
    Show(r.clientPid) + " " + Show(r.num1) + " " + Show(r.operation) + " " + Show(r.num2)
  }

  /** A canonical numeral is its own digit prefix. */
  lemma LeadingDigitsOfCanonical(s: string)
    requires Canonical(s)
    ensures LeadingDigits(s) == s
  {
  }

  /** atoi reads back every numeral Show writes. */
  lemma AtoiShow(n: int)
    ensures Atoi(Show(n)) == n
    ensures IsWord(Show(n))
  {
    var m := if n < 0 then -n else n;
    IntStrCases(m);
    LeadingDigitsOfCanonical(IntStr(m));
    if n < 0 {
      assert Show(n)[1..] == IntStr(m);
    } else {
      assert IntStr(m)[0] != '-' by {
        assert IsDigit(IntStr(m)[0]);
      }
    }
    var s := Show(n);
    forall k | 0 <= k < |s|
      ensures s[k] != ' '
    {
      if n < 0 && k > 0 {
        assert s[k] == IntStr(m)[k - 1];
        assert IsDigit(IntStr(m)[k - 1]);
      } else if n >= 0 {
        assert IsDigit(s[k]);
      }
    }
  }

  /** A word with no spaces is exactly the run Word reads at the head of that word followed
      by a space or by nothing. */
  lemma {:induction false} WordOfJoin(w: string, rest: string)
    requires forall k :: 0 <= k < |w| ==> w[k] != ' '
    requires |rest| == 0 || rest[0] == ' '
    ensures Word(w + rest) == w
  {
    if |w| > 0 {
      assert (w + rest)[1..] == w[1..] + rest;
      WordOfJoin(w[1..], rest);
    } else {
      assert w + rest == rest;
    }
  }

  /** Splitting a space-joined text: a non-empty word without spaces followed by a space and
      the rest yields that word and then the tokens of the rest. */
  lemma TokensOfJoin(w: string, rest: string)
    requires IsWord(w)
    ensures Tokens(w + " " + rest) == [w] + Tokens(rest)
    ensures Tokens(w) == [w]
  {
    var s := w + " " + rest;
    WordOfJoin(w, " " + rest);
    assert s == w + (" " + rest);
    assert s[|w|..] == " " + rest;
    assert (" " + rest)[1..] == rest;
    WordOfJoin(w, []);
    assert w + [] == w;
    assert w[|w|..] == [];
  }

  predicate IsWord(w: string)
  {
    |w| > 0 && forall k :: 0 <= k < |w| ==> w[k] != ' '
  }

  lemma TwoTokens(c: string, d: string)
    requires IsWord(c) && IsWord(d)
    ensures Tokens(c + " " + d) == [c, d]
  {
    TokensOfJoin(d, []);
    TokensOfJoin(c, d);
  }

  lemma ThreeTokens(b: string, c: string, d: string)
    requires IsWord(b) && IsWord(c) && IsWord(d)
    ensures Tokens(b + " " + (c + " " + d)) == [b, c, d]
  {
    TwoTokens(c, d);
    TokensOfJoin(b, c + " " + d);
  }

  lemma JoinFour(a: string, b: string, c: string, d: string)
    ensures a + " " + b + " " + c + " " + d == a + " " + (b + " " + (c + " " + d))
  {
  }

  /** Four words joined by single spaces split back into those four words. */
  lemma TokensOfFour(a: string, b: string, c: string, d: string)
    requires IsWord(a) && IsWord(b) && IsWord(c) && IsWord(d)
    ensures Tokens(a + " " + b + " " + c + " " + d) == [a, b, c, d]
  {
    JoinFour(a, b, c, d);
    ThreeTokens(b, c, d);
    TokensOfJoin(a, b + " " + (c + " " + d));
  }

  /** parseInput reads back every request its client writes. */
  lemma ParseFormat(r: Request)
    ensures ParseInput(Format(r)) == Some(r)
  {
    AtoiShow(r.clientPid);
    AtoiShow(r.num1);
    AtoiShow(r.operation);
    AtoiShow(r.num2);
    TokensOfFour(Show(r.clientPid), Show(r.num1), Show(r.operation), Show(r.num2));
  }

  /** strtok skips any run of spaces, so leading spaces do not change the request read. */
  lemma ParseSkipsLeadingSpaces(buffer: string)
    ensures ParseInput(" " + buffer) == ParseInput(buffer)
  {
    assert (" " + buffer)[1..] == buffer;
  }
}
