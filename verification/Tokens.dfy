/** Terminated tokens of a byte string: what the iterator and the splitter of
    stringstore.c compute, independently of how they scan. */
module Tokens {
  import opened Bytes

  /** NUL always terminates; with a delimiter list, so does each of its bytes. */
  predicate Ends(ch: byte, delim: Option<seq<byte>>) {
    ch == NUL || (delim.Some? && ch in delim.value)
  }

  /** The terminator is the last byte and the only one. */
  ghost predicate IsToken(token: seq<byte>, delim: Option<seq<byte>>) {
    && token != []
    && Ends(token[|token| - 1], delim)
    && (forall i :: 0 <= i < |token| - 1 ==> !Ends(token[i], delim))
  }

  /** The index of the first terminator, |s| when there is none. */
  function FirstEnd(s: seq<byte>, delim: Option<seq<byte>>): (k: nat)
    ensures k <= |s|
    ensures forall i :: 0 <= i < k ==> !Ends(s[i], delim)
    ensures k < |s| ==> Ends(s[k], delim)
  {
    if s == [] || Ends(s[0], delim) then 0 else 1 + FirstEnd(s[1..], delim)
  }

  /** The first terminator is found at the only index it can be at. */
  lemma FirstEndIs(s: seq<byte>, delim: Option<seq<byte>>, k: nat)
    requires k <= |s|
    requires forall i :: 0 <= i < k ==> !Ends(s[i], delim)
    requires k < |s| ==> Ends(s[k], delim)
    ensures FirstEnd(s, delim) == k
  {
  }

  /** The length of the next token. Without a delimiter list the end of the
      buffer closes a token as well. */
  function NextLength(s: seq<byte>, delim: Option<seq<byte>>): (len: Option<nat>)
    ensures len.Some? ==> 0 < len.value <= |s|
  {
    var k := FirstEnd(s, delim);
    if k < |s| then Some(k + 1)
    else if delim.None? && s != [] then Some(|s|)
    else None
  }

  /** The tokens that iterating from the start of `s` yields. */
  function TokensOf(s: seq<byte>, delim: Option<seq<byte>>): seq<seq<byte>> {
    match NextLength(s, delim)
    case None => []
    case Some(len) => [s[..len]] + TokensOf(s[len..], delim)
  }

  function CountEnds(s: seq<byte>, delim: Option<seq<byte>>): nat {
    if s == [] then 0
    else CountEnds(s[..|s| - 1], delim) + if Ends(s[|s| - 1], delim) then 1 else 0
  }

  /** Every terminator overwritten by NUL. */
  function SplitBytes(s: seq<byte>, delim: Option<seq<byte>>): (r: seq<byte>)
    ensures |r| == |s|
    ensures forall i :: 0 <= i < |s| ==> r[i] == if Ends(s[i], delim) then NUL else s[i]
  {
    seq(|s|, i requires 0 <= i < |s| => if Ends(s[i], delim) then NUL else s[i])
  }

  lemma {:induction false} CountEndsAppend(s: seq<byte>, t: seq<byte>, delim: Option<seq<byte>>)
    ensures CountEnds(s + t, delim) == CountEnds(s, delim) + CountEnds(t, delim)
  {
    if t == [] {
      assert s + t == s;
    } else {
      var front := t[..|t| - 1];
      CountEndsAppend(s, front, delim);
      assert (s + t)[..|s + t| - 1] == s + front;
    }
  }

  lemma {:induction false} NoEnds(s: seq<byte>, delim: Option<seq<byte>>)
    requires forall i :: 0 <= i < |s| ==> !Ends(s[i], delim)
    ensures CountEnds(s, delim) == 0
  {
    if s != [] {
      NoEnds(s[..|s| - 1], delim);
    }
  }

  lemma TokenHasOneEnd(token: seq<byte>, delim: Option<seq<byte>>)
    requires IsToken(token, delim)
    ensures CountEnds(token, delim) == 1
  {
    NoEnds(token[..|token| - 1], delim);
  }

  /** Iterating over a leading token yields it and goes on behind it. */
  lemma TokensOfCons(token: seq<byte>, rest: seq<byte>, delim: Option<seq<byte>>)
    requires IsToken(token, delim)
    ensures TokensOf(token + rest, delim) == [token] + TokensOf(rest, delim)
  {
    var s := token + rest;
    FirstEndIs(s, delim, |token| - 1);
    assert s[..|token|] == token && s[|token|..] == rest;
  }

  lemma Associate(front: seq<seq<byte>>, token: seq<byte>, back: seq<seq<byte>>)
    ensures front + ([token] + back) == (front + [token]) + back
  {
  }

  lemma JoinAppend(front: seq<seq<byte>>, token: seq<byte>, rest: seq<byte>)
    ensures Join(front + [token]) + rest == Join(front) + (token + rest)
  {
    JoinSnoc(front, token);
  }

  ghost predicate AllTokens(tokens: seq<seq<byte>>, delim: Option<seq<byte>>) {
    forall i :: 0 <= i < |tokens| ==> IsToken(tokens[i], delim)
  }

  lemma TokensOfSnoc(front: seq<seq<byte>>, token: seq<byte>, rest: seq<byte>, delim: Option<seq<byte>>)
    requires IsToken(token, delim)
    requires TokensOf(Join(front) + (token + rest), delim) == front + TokensOf(token + rest, delim)
    ensures TokensOf(Join(front + [token]) + rest, delim) == (front + [token]) + TokensOf(rest, delim)
  {
    TokensOfCons(token, rest, delim);
    JoinAppend(front, token, rest);
    Associate(front, token, TokensOf(rest, delim));
  }

  /** However a stream was cut, whole tokens taken off its front are the first
      tokens of the stream, and iterating over the remainder yields the others. */
  lemma {:induction false} TokensOfJoin(taken: seq<seq<byte>>, rest: seq<byte>, delim: Option<seq<byte>>)
    requires AllTokens(taken, delim)
    ensures TokensOf(Join(taken) + rest, delim) == taken + TokensOf(rest, delim)
  {
    if taken == [] {
      assert Join([]) + rest == rest;
    } else {
      var front, token := taken[..|taken| - 1], taken[|taken| - 1];
      assert taken == front + [token];
      TokensOfJoin(front, token + rest, delim);
      TokensOfSnoc(front, token, rest, delim);
    }
  }

  /** Some terminator is left: the tokens are the first one and those behind it. */
  lemma TokensStep(s: seq<byte>, delim: Option<seq<byte>>) returns (token: seq<byte>, rest: seq<byte>)
    requires FirstEnd(s, delim) < |s|
    ensures s == token + rest && |rest| < |s|
    ensures IsToken(token, delim)
    ensures TokensOf(s, delim) == [token] + TokensOf(rest, delim)
  {
    var len := FirstEnd(s, delim) + 1;
    token, rest := s[..len], s[len..];
  }

  /** As many tokens as terminators. */
  lemma {:induction false} TokensAreCounted(s: seq<byte>, delim: Option<seq<byte>>)
    requires delim.Some?
    ensures |TokensOf(s, delim)| == CountEnds(s, delim)
    decreases |s|
  {
    if FirstEnd(s, delim) == |s| {
      NoEnds(s, delim);
    } else {
      var token, rest := TokensStep(s, delim);
      TokensAreCounted(rest, delim);
      TokenHasOneEnd(token, delim);
      CountEndsAppend(token, rest, delim);
    }
  }

  /** Each token ends in its only terminator, and together they are the longest
      prefix of the string that ends in a terminator. */
  lemma {:induction false} TokensAreTerminatedPieces(s: seq<byte>, delim: Option<seq<byte>>)
    requires delim.Some?
    ensures AllTokens(TokensOf(s, delim), delim)
    ensures Join(TokensOf(s, delim)) <= s
    ensures forall i :: |Join(TokensOf(s, delim))| <= i < |s| ==> !Ends(s[i], delim)
    decreases |s|
  {
    if FirstEnd(s, delim) < |s| {
      var token, rest := TokensStep(s, delim);
      TokensAreTerminatedPieces(rest, delim);
      JoinCons(token, TokensOf(rest, delim));
    }
  }

  /** Without a delimiter list an unterminated remainder is one more token, so
      the tokens make up the whole string. */
  lemma {:induction false} TokensWithoutDelimiters(s: seq<byte>)
    ensures Join(TokensOf(s, None)) == s
    ensures |TokensOf(s, None)| ==
      CountEnds(s, None) + if s != [] && !Ends(s[|s| - 1], None) then 1 else 0
    decreases |s|
  {
    if FirstEnd(s, None) < |s| {
      var token, rest := TokensStep(s, None);
      TokensWithoutDelimiters(rest);
      TokenHasOneEnd(token, None);
      CountEndsAppend(token, rest, None);
      JoinCons(token, TokensOf(rest, None));
    } else {
      NoEnds(s, None);
      if s != [] {
        assert s[..|s|] == s && TokensOf(s[|s|..], None) == [];
        assert TokensOf(s, None) == [s];
        JoinCons(s, []);
        assert [s] + [] == [s];
      }
    }
  }

  ghost predicate SubsetOf(sub: Option<seq<byte>>, delim: Option<seq<byte>>) {
    sub.Some? && delim.Some? && forall ch :: ch in sub.value ==> ch in delim.value
  }

  function SplitTokens(tokens: seq<seq<byte>>, delim: Option<seq<byte>>): seq<seq<byte>> {
    seq(|tokens|, i requires 0 <= i < |tokens| => SplitBytes(tokens[i], delim))
  }

  lemma SplitTokensCons(token: seq<byte>, tokens: seq<seq<byte>>, delim: Option<seq<byte>>)
    ensures SplitTokens([token] + tokens, delim) == [SplitBytes(token, delim)] + SplitTokens(tokens, delim)
  {
  }

  lemma SplitBytesAppend(s: seq<byte>, t: seq<byte>, delim: Option<seq<byte>>)
    ensures SplitBytes(s + t, delim) == SplitBytes(s, delim) + SplitBytes(t, delim)
  {
  }

  /** A token stays one when it is split. */
  lemma SplitToken(token: seq<byte>, delim: Option<seq<byte>>, sub: Option<seq<byte>>)
    requires SubsetOf(sub, delim) && IsToken(token, delim)
    ensures IsToken(SplitBytes(token, delim), sub)
  {
  }

  /** After a split, iterating with any part of the delimiter list yields the
      tokens it yielded before, each with its terminator turned into NUL. */
  lemma {:induction false} SplitKeepsTokens(s: seq<byte>, delim: Option<seq<byte>>, sub: Option<seq<byte>>)
    requires SubsetOf(sub, delim)
    ensures TokensOf(SplitBytes(s, delim), sub) == SplitTokens(TokensOf(s, delim), delim)
    decreases |s|
  {
    if FirstEnd(s, delim) == |s| {
      FirstEndIs(SplitBytes(s, delim), sub, |s|);
    } else {
      var token, rest := TokensStep(s, delim);
      var tokens := TokensOf(rest, delim);
      calc {
        TokensOf(SplitBytes(s, delim), sub);
        { SplitBytesAppend(token, rest, delim); }
        TokensOf(SplitBytes(token, delim) + SplitBytes(rest, delim), sub);
        { SplitToken(token, delim, sub); TokensOfCons(SplitBytes(token, delim), SplitBytes(rest, delim), sub); }
        [SplitBytes(token, delim)] + TokensOf(SplitBytes(rest, delim), sub);
        { SplitKeepsTokens(rest, delim, sub); }
        [SplitBytes(token, delim)] + SplitTokens(tokens, delim);
        { SplitTokensCons(token, tokens, delim); }
        SplitTokens([token] + tokens, delim);
      }
    }
  }
}
