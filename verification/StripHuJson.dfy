/**
 The second, independent HuJSON stripper: one pass blanks comments, another blanks trailing
 commas. It agrees with the standardizer up to the choice of whitespace byte.
 */
module StripHuJson {
  import opened Bytes
  import opened Wrappers
  import opened Lexemes
  import opened Literals

  // ----- the passes as functions of the text that remains -----

  /** The bytes before the first line feed. */
  function LineBody(s: bytes): (n: nat)
    ensures n <= |s| && (n < |s| ==> s[n] == LF) && forall i :: 0 <= i < n ==> s[i] != LF
  {
    if s == [] || s[0] == LF then 0 else 1 + LineBody(s[1..])
  }

  function Soften(s: bytes): (r: bytes)
    ensures |r| == |s| && AllSpace(r)
  {
    seq(|s|, i requires 0 <= i < |s| => if s[i] == LF || s[i] == CR then s[i] else SPACE)
  }

  function Comments(s: bytes, inString: bool, escaped: bool): (r: bytes)
    ensures |r| == |s|
    decreases |s|
  {
    if s == [] then []
    else if inString then [s[0]] + Comments(s[1..], !EndsString(s[0], escaped), Escapes(s[0], escaped))
    else if s[0] == QUOTE then [s[0]] + Comments(s[1..], true, false)
    else if |s| >= 2 && s[0] == SLASH && s[1] == SLASH then
      var k := 2 + LineBody(s[2..]);
      Soften(s[..k]) + Comments(s[k..], false, false)
    else if |s| >= 2 && s[0] == SLASH && s[1] == STAR then
      var k := BlockEnd(s[2..]);
      if k.None? then s else Soften(s[..2 + k.value]) + Comments(s[2 + k.value..], false, false)
    else [s[0]] + Comments(s[1..], false, false)
  }

  /** The first byte that is not whitespace. */
  function FirstInk(s: bytes): (r: Option<byte>) {
    if s == [] then None else if IsSpace(s[0]) then FirstInk(s[1..]) else Some(s[0])
  }

  predicate IsTrailing(s: bytes) {
    FirstInk(s) == Some(CLOSE_BRACKET) || FirstInk(s) == Some(CLOSE_BRACE)
  }

  function Commas(s: bytes, inString: bool, escaped: bool): (r: bytes)
    ensures |r| == |s|
    decreases |s|
  {
    if s == [] then []
    else if inString then [s[0]] + Commas(s[1..], !EndsString(s[0], escaped), Escapes(s[0], escaped))
    else if s[0] == QUOTE then [s[0]] + Commas(s[1..], true, false)
    else if s[0] == COMMA && IsTrailing(s[1..]) then [SPACE] + Commas(s[1..], false, false)
    else [s[0]] + Commas(s[1..], false, false)
  }

  function Stripped(s: bytes): (r: bytes)
    ensures |r| == |s|
  {
    Commas(Comments(s, false, false), false, false)
  }

  // ----- the passes as loops -----

  method StripHuJson(source: bytes) returns (out: bytes)
    ensures out == Stripped(source)
  {
    var comments := BlankComments(source);
    out := BlankCommas(comments);
  }

  method BlankComments(source: bytes) returns (comments: bytes)
    ensures comments == Comments(source, false, false)
  {
    hide Comments, Soften, LineBody, BlockEnd;
    comments := [];
    var at, inString, escaped := 0, false, false;
    CommentsStart(source);
    while at < |source|
      invariant 0 <= at <= |source|
      invariant !inString ==> !escaped
      invariant comments + Comments(source[at..], inString, escaped) == Comments(source, false, false)
    {
      var b := source[at];
      ghost var was := comments;
      if !inString && b == SLASH && at + 1 < |source| && source[at + 1] == SLASH {
        var start := at;
        at := LineFrom(source, at + 2);
        CommentsLine(source, start, at);
        comments := comments + Soften(source[start..at]);
        Regroup(was, Soften(source[start..at]), Comments(source[at..], false, false));
      } else if !inString && b == SLASH && at + 1 < |source| && source[at + 1] == STAR {
        var end := BlockEnd(source[at + 2..]);
        CommentsBlock(source, at);
        if end.None? {
          comments := comments + source[at..];
          return;
        }
        var stop := at + 2 + end.value;
        comments := comments + Soften(source[at..stop]);
        Regroup(was, Soften(source[at..stop]), Comments(source[stop..], false, false));
        at := stop;
      } else {
        CommentsByte(source, at, inString, escaped);
        comments := comments + [b];
        if inString {
          if escaped {
            escaped := false;
          } else if b == BACKSLASH {
            escaped := true;
          } else if b == QUOTE {
            inString := false;
          }
        } else {
          inString := b == QUOTE;
        }
        at := at + 1;
        Regroup(was, [b], Comments(source[at..], inString, escaped));
      }
    }
    CommentsEnd(source);
  }

  lemma CommentsStart(source: bytes)
    ensures [] + Comments(source[0..], false, false) == Comments(source, false, false)
  {
    assert source[0..] == source;
  }

  lemma CommentsEnd(source: bytes)
    ensures forall inString, escaped :: Comments(source[|source|..], inString, escaped) == []
  {
  }

  lemma CommentsByte(source: bytes, at: nat, inString: bool, escaped: bool)
    requires at < |source|
    requires inString || !StartsComment(source[at..])
    ensures Comments(source[at..], inString, escaped) ==
            [source[at]] +
            Comments(source[at + 1..], if inString then !EndsString(source[at], escaped) else source[at] == QUOTE,
                                    inString && Escapes(source[at], escaped))
  {
    assert source[at..][1..] == source[at + 1..];
  }

  lemma {:induction false} CommentsLine(source: bytes, at: nat, end: nat)
    requires at + 1 < |source| && source[at] == SLASH && source[at + 1] == SLASH
    requires end == at + 2 + LineBody(source[at + 2..])
    ensures Comments(source[at..], false, false) == Soften(source[at..end]) + Comments(source[end..], false, false)
  {
    hide LineBody, Soften;
    var s, k := source[at..], end - at;
    assert s[2..] == source[at + 2..] && s[..k] == source[at..end] && s[k..] == source[end..];
  }

  lemma {:induction false} CommentsBlock(source: bytes, at: nat)
    requires at + 1 < |source| && source[at] == SLASH && source[at + 1] == STAR
    ensures var end := BlockEnd(source[at + 2..]);
            Comments(source[at..], false, false) ==
            if end.None? then source[at..]
            else Soften(source[at..at + 2 + end.value]) + Comments(source[at + 2 + end.value..], false, false)
  {
    hide BlockEnd, Soften;
    var s := source[at..];
    assert s[2..] == source[at + 2..];
    var end := BlockEnd(s[2..]);
    if end.Some? {
      var k := 2 + end.value;
      assert s[..k] == source[at..at + k] && s[k..] == source[at + k..];
    }
  }

  method LineFrom(source: bytes, from: nat) returns (at: nat)
    requires from <= |source|
    ensures at == from + LineBody(source[from..])
  {
    at := from;
    while at < |source| && source[at] != LF
      invariant from <= at <= |source|
      invariant LineBody(source[from..]) == at - from + LineBody(source[at..])
    {
      assert source[at..][1..] == source[at + 1..];
      at := at + 1;
    }
  }

  method BlankCommas(comments: bytes) returns (out: bytes)
    ensures out == Commas(comments, false, false)
  {
    hide Commas, IsTrailing;
    out := [];
    var index, inString, escaped := 0, false, false;
    CommasStart(comments);
    while index < |comments|
      invariant 0 <= index <= |comments|
      invariant !inString ==> !escaped
      invariant out + Commas(comments[index..], inString, escaped) == Commas(comments, false, false)
    {
      var b := comments[index];
      ghost var was := out;
      CommasByte(comments, index, inString, escaped);
      if inString {
        out := out + [b];
        if escaped {
          escaped := false;
        } else if b == BACKSLASH {
          escaped := true;
        } else if b == QUOTE {
          inString := false;
        }
      } else {
        if b == QUOTE {
          inString := true;
        }
        if b == COMMA && IsTrailing(comments[index + 1..]) {
          out := out + [SPACE];
        } else {
          out := out + [b];
        }
      }
      index := index + 1;
      Regroup(was, out[|was|..], Commas(comments[index..], inString, escaped));
    }
    CommasEnd(comments);
  }

  lemma CommasStart(source: bytes)
    ensures [] + Commas(source[0..], false, false) == Commas(source, false, false)
  {
    assert source[0..] == source;
  }

  lemma CommasEnd(source: bytes)
    ensures forall inString, escaped :: Commas(source[|source|..], inString, escaped) == []
  {
  }

  lemma CommasByte(source: bytes, at: nat, inString: bool, escaped: bool)
    requires at < |source|
    ensures Commas(source[at..], inString, escaped) ==
            [if !inString && source[at] == COMMA && IsTrailing(source[at + 1..]) then SPACE else source[at]]
            + Commas(source[at + 1..], if inString then !EndsString(source[at], escaped) else source[at] == QUOTE,
                     inString && Escapes(source[at], escaped))
  {
    hide IsTrailing;
    assert source[at..][1..] == source[at + 1..];
  }
}
