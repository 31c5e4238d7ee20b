/**
 The byte cursor that walks JSON: scalar tokens, and values with an optional limit on container
 nesting, kept on an explicit stack of frames.
 */
module Cursors {
  import opened Bytes
  import opened Wrappers
  import opened Lexemes
  import opened Syntax
  import opened Reader
  import opened Stacks

  function SpaceLen(s: bytes): (n: nat)
    ensures n <= |s| && ExtraLen(s, Json) == Some(n)
    ensures n < |s| ==> !IsSpace(s[n])
  {
    if s == [] || !IsSpace(s[0]) then 0 else 1 + SpaceLen(s[1..])
  }

  function Skip(s: bytes): (r: bytes)
    ensures |r| <= |s| && (r != [] ==> !IsSpace(r[0]))
  {
    s[SpaceLen(s)..]
  }

  lemma SkipTwice(s: bytes)
    ensures Skip(Skip(s)) == Skip(s)
  {
  }

  lemma SkipOne(s: bytes)
    requires s != [] && IsSpace(s[0])
    ensures Skip(s) == Skip(s[1..])
  {
  }

  // ----- what the cursor reads, by the grammar -----

  /** `depth` more levels fit below `height` open containers. */
  predicate Fits(limit: Option<nat>, height: nat, depth: nat) {
    limit.None? || height + depth <= limit.value
  }

  /** What is left after the value at the start of `s`, inside `height` open containers. */
  function BodyRest(s: bytes, limit: Option<nat>, height: nat): (r: Option<bytes>)
    ensures r.Some? ==> |r.value| < |s|
  {
    if s == [] then None
    else if s[0] == OPEN_BRACE || s[0] == OPEN_BRACKET then
      var (body, t) :- ReadBody(s, Json);
      if Fits(limit, height, DepthBody(body)) then Some(t) else None
    else
      var k :- TokenLen(s);
      Some(s[k..])
  }

  function ItemsRest(s: bytes, obj: bool, first: bool, limit: Option<nat>, height: nat): (r: Option<bytes>)
    ensures r.Some? ==> |r.value| < |s|
  {
    var (items, t) :- ReadItems(s, obj, Json, first);
    if Fits(limit, height, DepthItems(items)) then Some(t) else None
  }

  function AfterRest(s: bytes, obj: bool, limit: Option<nat>, height: nat): (r: Option<bytes>)
    ensures r.Some? ==> |r.value| < |s|
  {
    var (after, t) :- ReadAfter(s, obj, Json);
    if after.None? || Fits(limit, height, DepthItems(after.value)) then Some(t) else None
  }

  // ----- the frame machine -----

  datatype Frame = ArrayFirst | ArrayComma | ObjectFirst | ObjectKey | ObjectColon | ObjectComma

  /** What is left once every open frame has been closed, from a point where no value is due. */
  ghost function Closing(frames: Stack<Frame>, s: bytes, limit: Option<nat>): (r: Option<bytes>)
    decreases frames
  {
    match frames
    case Empty => Some(s)
    case Push(frame, below) =>
      var h := Height(frames);
      match frame
      case ArrayFirst => var t :- ItemsRest(s, false, true, limit, h); Closing(below, t, limit)
      case ObjectFirst => var t :- ItemsRest(s, true, true, limit, h); Closing(below, t, limit)
      case ObjectKey => var t :- ItemsRest(s, true, false, limit, h); Closing(below, t, limit)
      case ArrayComma => var t :- AfterRest(Skip(s), false, limit, h); Closing(below, t, limit)
      case ObjectComma => var t :- AfterRest(Skip(s), true, limit, h); Closing(below, t, limit)
      case ObjectColon =>
        var u := Skip(s);
        if u == [] || u[0] != COLON then None
        else
          var t :- BodyRest(Skip(u[1..]), limit, h);
          var v :- AfterRest(Skip(t), true, limit, h);
          Closing(below, v, limit)
  }

  /** The same from a point where a value is due. */
  ghost function Expecting(frames: Stack<Frame>, s: bytes, limit: Option<nat>): (r: Option<bytes>) {
    var t :- BodyRest(Skip(s), limit, Height(frames));
    Closing(frames, t, limit)
  }

  /** A container is its items one level further down. */
  lemma GroupRest(s: bytes, limit: Option<nat>, height: nat)
    requires s != [] && (s[0] == OPEN_BRACE || s[0] == OPEN_BRACKET)
    ensures BodyRest(s, limit, height) ==
            if Fits(limit, height, 1) then ItemsRest(s[1..], s[0] == OPEN_BRACE, true, limit, height + 1) else None
  {
    hide ReadItems, DepthItems;
  }

  lemma OpenStep(frames: Stack<Frame>, s: bytes, limit: Option<nat>)
    requires s != [] && (s[0] == OPEN_BRACE || s[0] == OPEN_BRACKET)
    ensures Expecting(frames, s, limit) ==
            if !Fits(limit, Height(frames), 1) then None
            else Closing(Push(if s[0] == OPEN_BRACE then ObjectFirst else ArrayFirst, frames), s[1..], limit)
  {
    hide BodyRest, ItemsRest, Fits, Closing;
    assert Skip(s) == s;
    GroupRest(s, limit, Height(frames));
    FirstFrame(frames, s[0] == OPEN_BRACE, s[1..], limit);
  }

  lemma FirstFrame(frames: Stack<Frame>, obj: bool, s: bytes, limit: Option<nat>)
    ensures Closing(Push(if obj then ObjectFirst else ArrayFirst, frames), s, limit) ==
            var t := ItemsRest(s, obj, true, limit, Height(frames) + 1);
            if t.None? then None else Closing(frames, t.value, limit)
  {
    hide ItemsRest;
  }

  lemma TokenStep(frames: Stack<Frame>, s: bytes, limit: Option<nat>)
    requires s != [] && !IsSpace(s[0]) && s[0] != OPEN_BRACE && s[0] != OPEN_BRACKET
    ensures var k := TokenLen(s);
            Expecting(frames, s, limit) == if k.None? then None else Closing(frames, s[k.value..], limit)
  {
    hide TokenLen, Closing;
    assert Skip(s) == s;
  }

  lemma ExpectingSkip(frames: Stack<Frame>, s: bytes, limit: Option<nat>)
    ensures Expecting(frames, Skip(s), limit) == Expecting(frames, s, limit)
    ensures Skip(s) == [] ==> Expecting(frames, s, limit).None?
    ensures Skip(s) != [] ==> !IsSpace(Skip(s)[0])
  {
    hide Closing;
    SkipTwice(s);
  }

  /** A scalar token followed by what must come after an item is read as the grammar reads it. */
  lemma TokenThenAfter(s: bytes, obj: bool)
    requires s != [] && s[0] != OPEN_BRACE && s[0] != OPEN_BRACKET
    ensures ScalarLen(s).Some? ==> TokenLen(s) == ScalarLen(s)
    ensures TokenLen(s).Some? && ScalarLen(s).None? ==> ReadAfter(Skip(s[TokenLen(s).value..]), obj, Json).None?
  {
    hide ScalarLen, TokenLen, ReadItems;
    TokenOrWord(s);
    if TokenLen(s).Some? && ScalarLen(s).None? {
      var t := s[TokenLen(s).value..];
      assert IsWordByte(t[0]);
      assert Skip(t) == t;
    }
  }

  /** The value at the start of `s` and what comes after it, read one after the other. */
  lemma ValueThenAfter(s: bytes, obj: bool, limit: Option<nat>, h: nat)
    requires Fits(limit, h, 0)
    ensures var t := BodyRest(s, limit, h);
            var body := ReadBody(s, Json);
            var after := if body.None? then None else ReadAfter(Skip(body.value.1), obj, Json);
            (if t.None? then None else AfterRest(Skip(t.value), obj, limit, h)) ==
            if after.None? then None
            else if Fits(limit, h, DepthBody(body.value.0))
              && (after.value.0.None? || Fits(limit, h, DepthItems(after.value.0.value)))
            then Some(after.value.1) else None
  {
    hide ScalarLen, TokenLen, ReadItems, ReadAfter, DepthItems, Skip;
    if s != [] && s[0] != OPEN_BRACE && s[0] != OPEN_BRACKET {
      TokenThenAfter(s, obj);
    }
  }

  lemma ReadNodeParts(s: bytes)
    ensures var body := ReadBody(Skip(s), Json);
            ReadNode(s, Json) ==
            if body.None? then None
            else
              var t := body.value.1;
              Some((Node(s[..SpaceLen(s)], body.value.0, t[..SpaceLen(t)]), Skip(t)))
  {
    hide ReadBody;
  }

  lemma ElementStep(s: bytes, first: bool, limit: Option<nat>, h: nat)
    requires Fits(limit, h, 0) && (Skip(s) != [] ==> Skip(s)[0] != CLOSE_BRACKET)
    ensures ItemsRest(s, false, first, limit, h) ==
            (var t := BodyRest(Skip(s), limit, h); if t.None? then None else AfterRest(Skip(t.value), false, limit, h))
  {
    hide ReadBody, ReadNode, ReadAfter, BodyRest, Skip, SpaceLen, DepthBody;
    ReadNodeParts(s);
    ValueThenAfter(Skip(s), false, limit, h);
    ItemsParts(s, false, first);
    var body := ReadBody(Skip(s), Json);
    if body.Some? {
      var after := ReadAfter(Skip(body.value.1), false, Json);
      if after.Some? {
        JoinedFits(limit, h, ReadItem(s, false, Json).value.0, after.value.0);
      }
    }
  }

  lemma JoinedFits(limit: Option<nat>, h: nat, item: Item, after: Option<Items>)
    ensures Fits(limit, h, DepthItems(if after.None? then Last(item) else More(item, after.value))) <==>
            Fits(limit, h, DepthBody(item.value.body)) && (after.None? || Fits(limit, h, DepthItems(after.value)))
  {
  }

  lemma ItemsParts(s: bytes, obj: bool, first: bool)
    requires Skip(s) != [] ==> Skip(s)[0] != Closer(obj)
    ensures var item := ReadItem(s, obj, Json);
            var after := if item.None? then None else ReadAfter(item.value.1, obj, Json);
            ReadItems(s, obj, Json, first) ==
            if after.None? then None
            else Some((if after.value.0.None? then Last(item.value.0) else More(item.value.0, after.value.0.value),
                       after.value.1))
  {
    hide ReadItem, ReadAfter;
    assert SpaceLen(s) < |s| ==> s[SpaceLen(s)] == Skip(s)[0];
  }

  lemma NeverCloses(s: bytes, obj: bool, first: bool)
    requires Skip(s) != [] && Skip(s)[0] == Closer(obj)
    ensures ReadItems(s, obj, Json, first) == if first then Some((Close(s[..SpaceLen(s)]), Skip(s)[1..])) else None
  {
    hide ReadItem;
    var e := SpaceLen(s);
    assert s[e + 1..] == s[e..][1..] && s[e] == Skip(s)[0];
  }

  lemma {:induction false} MemberStep(s: bytes, first: bool, limit: Option<nat>, h: nat)
    requires Fits(limit, h, 0) && (Skip(s) != [] ==> Skip(s)[0] != CLOSE_BRACE)
    ensures var u := Skip(s);
            ItemsRest(s, true, first, limit, h) ==
            if u == [] || u[0] != QUOTE || StringTail(u[1..]).None? then None
            else
              var t := Skip(u[1 + StringTail(u[1..]).value..]);
              if t == [] || t[0] != COLON then None
              else
                var v := BodyRest(Skip(t[1..]), limit, h);
                if v.None? then None else AfterRest(Skip(v.value), true, limit, h)
  {
    hide ReadBody, ReadNode, ReadAfter, BodyRest, Skip, SpaceLen, DepthBody, StringTail;
    ReadNodeParts(s);
    ItemsParts(s, true, first);
    NameBody(Skip(s));
    var u := Skip(s);
    if u != [] && u[0] == QUOTE && StringTail(u[1..]).Some? {
      var t := Skip(u[1 + StringTail(u[1..]).value..]);
      if t != [] && t[0] == COLON {
        ReadNodeParts(t[1..]);
        ValueThenAfter(Skip(t[1..]), true, limit, h);
        var value := ReadBody(Skip(t[1..]), Json);
        if value.Some? {
          var after := ReadAfter(Skip(value.value.1), true, Json);
          if after.Some? {
            JoinedFits(limit, h, ReadItem(s, true, Json).value.0, after.value.0);
          }
        }
      }
    }
  }

  /** A member's name is a string token. */
  lemma NameBody(u: bytes)
    ensures var body := ReadBody(u, Json);
            var quoted := u != [] && u[0] == QUOTE && StringTail(u[1..]).Some?;
            && (quoted ==> body == Some((Scalar(u[..1 + StringTail(u[1..]).value]), u[1 + StringTail(u[1..]).value..])))
            && (body.Some? && body.value.0.Scalar? && body.value.0.text != [] && body.value.0.text[0] == QUOTE ==>
                quoted)
  {
    hide ReadItems, StringTail, IsWord;
  }

  // ----- the cursor -----

  class Cursor {
    const text: bytes
    var at: nat

    constructor (text: bytes)
      ensures this.text == text && at == 0
    {
      this.text, at := text, 0;
    }

    ghost predicate Valid()
      reads this
    {
      at <= |text|
    }

    /** The text not yet read. */
    ghost function Left(): bytes
      reads this
      requires Valid()
    {
      text[at..]
    }

    method Space()
      requires Valid()
      modifies this`at
      ensures Valid() && Left() == Skip(old(Left())) && at == old(at) + SpaceLen(old(Left()))
    {
      while at < |text| && IsSpace(text[at])
        invariant Valid() && at >= old(at)
        invariant SpaceLen(old(Left())) == at - old(at) + SpaceLen(text[at..])
      {
        assert text[at..][1..] == text[at + 1..];
        at := at + 1;
      }
      assert old(Left())[at - old(at)..] == text[at..];
    }

    method Take(b: byte) returns (ok: bool)
      requires Valid()
      modifies this`at
      ensures Valid() && ok == (old(Left()) != [] && old(Left())[0] == b)
      ensures ok ==> Left() == old(Left())[1..]
      ensures !ok ==> at == old(at)
    {
      if at == |text| || text[at] != b { return false; }
      assert text[at..][1..] == text[at + 1..];
      at := at + 1;
      ok := true;
    }

    method Done() returns (ok: bool)
      requires Valid()
      modifies this`at
      ensures Valid() && ok == (Skip(old(Left())) == [])
    {
      Space();
      ok := at == |text|;
    }

    /** Read a string token. */
    method Quoted() returns (ok: bool)
      requires Valid()
      modifies this`at
      ensures Valid()
      ensures ok <==> old(Left()) != [] && old(Left())[0] == QUOTE && StringTail(old(Left())[1..]).Some?
      ensures ok ==> at == old(at) + 1 + StringTail(old(Left())[1..]).value
    {
      hide StringTail, UnitLen;
      ok := Take(QUOTE);
      if !ok { return; }
      ghost var start := at;
      while true
        invariant Valid() && start <= at
        invariant StringTail(text[start..]) == Plus(at - start, StringTail(text[at..]))
        decreases |text| - at
      {
        TailStep(text, at);
        if at == |text| { return false; }
        var b := text[at];
        if b == QUOTE {
          at := at + 1;
          return true;
        } else if b == BACKSLASH {
          var k := Escape();
          if k == 0 { return false; }
          at := at + k;
        } else if b < SPACE {
          return false;
        } else {
          at := at + 1;
        }
      }
    }

    /** The width of the escape at the cursor; 0 if it is malformed. */
    method Escape() returns (k: nat)
      requires at < |text| && text[at] == BACKSLASH
      ensures k == UnitLen(text[at..])
    {
      if at + 1 == |text| { return 0; }
      if IsSimpleEscape(text[at + 1]) { return 2; }
      if text[at + 1] != 0x75 || at + 6 > |text| { return 0; }
      var i := 2;
      while i < 6
        invariant 2 <= i <= 6 && forall j :: 2 <= j < i ==> IsHex(text[at..][j])
      {
        if !IsHex(text[at + i]) { return 0; }
        i := i + 1;
      }
      k := 6;
    }

    method Digits() returns (ok: bool)
      requires Valid()
      modifies this`at
      ensures Valid() && at == old(at) + DigitsLen(old(Left())) && ok == (DigitsLen(old(Left())) > 0)
    {
      var start := at;
      while at < |text| && IsDigit(text[at])
        invariant Valid() && at >= old(at)
        invariant DigitsLen(old(Left())) == at - old(at) + DigitsLen(text[at..])
      {
        assert text[at..][1..] == text[at + 1..];
        at := at + 1;
      }
      ok := at > start;
    }

    method Number() returns (ok: bool)
      requires Valid()
      modifies this`at
      ensures Valid() && (ok <==> NumberLen(old(Left())).Some?)
      ensures ok ==> at == old(at) + NumberLen(old(Left())).value
    {
      hide IntegerLen, FractionLen, ExponentLen;
      ghost var s := Left();
      if at < |text| && text[at] == MINUS {
        at := at + 1;
      }
      ghost var m := at - old(at);
      assert text[at..] == s[m..];
      ok := Integer(s, m);
      if !ok { return; }
      ok := Fraction(s, at - old(at));
      if !ok { return; }
      ok := Exponent(s, at - old(at));
    }

    method Integer(ghost s: bytes, ghost i: nat) returns (ok: bool)
      requires Valid() && i <= |s| && text[at..] == s[i..]
      modifies this`at
      ensures Valid() && (ok <==> IntegerLen(s[i..]).Some?)
      ensures ok ==> at == old(at) + IntegerLen(s[i..]).value && text[at..] == s[i + IntegerLen(s[i..]).value..]
    {
      hide DigitsLen;
      if at < |text| && text[at] == ZERO {
        at := at + 1;
        ok := true;
      } else if at < |text| && IsDigit(text[at]) {
        ok := Digits();
      } else {
        return false;
      }
      assert text[at..] == text[old(at)..][at - old(at)..] == s[i..][at - old(at)..] == s[i + (at - old(at))..];
    }

    method Fraction(ghost s: bytes, ghost i: nat) returns (ok: bool)
      requires Valid() && i <= |s| && text[at..] == s[i..]
      modifies this`at
      ensures Valid() && (ok <==> FractionLen(s[i..]).Some?)
      ensures ok ==> at == old(at) + FractionLen(s[i..]).value && text[at..] == s[i + FractionLen(s[i..]).value..]
    {
      hide DigitsLen;
      if at == |text| || text[at] != DOT { return true; }
      assert text[at + 1..] == text[at..][1..];
      at := at + 1;
      ok := Digits();
      assert text[at..] == text[old(at)..][at - old(at)..] == s[i..][at - old(at)..] == s[i + (at - old(at))..];
    }

    method Exponent(ghost s: bytes, ghost i: nat) returns (ok: bool)
      requires Valid() && i <= |s| && text[at..] == s[i..]
      modifies this`at
      ensures Valid() && (ok <==> ExponentLen(s[i..]).Some?)
      ensures ok ==> at == old(at) + ExponentLen(s[i..]).value
    {
      hide DigitsLen;
      if at == |text| || !(text[at] == 0x65 || text[at] == 0x45) { return true; }
      at := at + 1;
      assert s[i..][0] == text[at - 1] && (at < |text| ==> s[i..][1] == text[at]);
      if at < |text| && (text[at] == PLUS || text[at] == MINUS) {
        at := at + 1;
      }
      assert text[at..] == text[old(at)..][at - old(at)..];
      ok := Digits();
    }

    method Keyword(word: bytes) returns (ok: bool)
      requires Valid()
      modifies this`at
      ensures Valid() && ok == (word <= old(Left()))
      ensures ok ==> at == old(at) + |word|
    {
      if |word| > |text| - at || text[at..at + |word|] != word {
        return false;
      }
      assert text[at..][..|word|] == word;
      at := at + |word|;
      ok := true;
    }

    /** Read a scalar token. */
    method Token() returns (ok: bool)
      requires Valid() && at < |text|
      modifies this`at
      ensures Valid() && (ok <==> TokenLen(old(Left())).Some?)
      ensures ok ==> at == old(at) + TokenLen(old(Left())).value
    {
      hide StringTail, NumberLen;
      var b := text[at];
      assert b == text[at..][0];
      if b == QUOTE {
        ok := Quoted();
      } else if b == MINUS || IsDigit(b) {
        ok := Number();
      } else if b == 0x74 {
        ok := Keyword(TRUE);
      } else if b == 0x66 {
        ok := Keyword(FALSE);
      } else if b == 0x6E {
        ok := Keyword(NULL);
      } else {
        ok := false;
      }
    }
  }

  lemma TailStep(text: bytes, at: nat)
    requires at <= |text|
    ensures at == |text| ==> StringTail(text[at..]).None?
    ensures at < |text| && text[at] == QUOTE ==> StringTail(text[at..]) == Some(1)
    ensures at < |text| && text[at] != QUOTE ==>
              var k := UnitLen(text[at..]);
              StringTail(text[at..]) == if k == 0 then None else Plus(k, StringTail(text[at + k..]))
    ensures at < |text| && text[at] != QUOTE && text[at] != BACKSLASH ==>
              UnitLen(text[at..]) == if text[at] < SPACE then 0 else 1
  {
    if at < |text| && text[at] != QUOTE {
      var k := UnitLen(text[at..]);
      assert text[at..][k..] == text[at + k..];
    }
  }

  // ----- the value walker -----

  /** What is left when the walker, in this state, is done. */
  ghost function Walk(frames: Stack<Frame>, value: bool, s: bytes, limit: Option<nat>): Option<bytes> {
    if value then Expecting(frames, s, limit) else Closing(frames, s, limit)
  }

  method WalkValue(c: Cursor, limit: Option<nat>, frames: Stack<Frame>) returns (ok: bool, r: Stack<Frame>)
    requires c.Valid() && Fits(limit, Height(frames), 0)
    modifies c`at
    ensures c.Valid()
    ensures ok ==>
            c.at > old(c.at) && Fits(limit, Height(r), 0)
            && Closing(r, c.Left(), limit) == old(Expecting(frames, c.Left(), limit))
    ensures !ok ==> old(Expecting(frames, c.Left(), limit)).None?
  {
    hide Closing, Expecting, TokenLen, Skip, SpaceLen, BodyRest;
    r := frames;
    ExpectingSkip(frames, c.Left(), limit);
    c.Space();
    ghost var s := c.Left();
    if c.at == |c.text| { return false, frames; }
    var b := c.text[c.at];
    assert b == s[0];
    if b == OPEN_BRACE || b == OPEN_BRACKET {
      OpenStep(frames, s, limit);
      if limit.Some? && Height(frames) >= limit.value { return false, frames; }
      r := Push(if b == OPEN_BRACE then ObjectFirst else ArrayFirst, frames);
      assert c.text[c.at + 1..] == s[1..];
      c.at := c.at + 1;
      ok := true;
    } else {
      ghost var from := c.at;
      TokenStep(frames, s, limit);
      ok := c.Token();
      assert ok ==> c.text[c.at..] == s[c.at - from..];
    }
  }

  lemma CloseStep(obj: bool, below: Stack<Frame>, s: bytes, limit: Option<nat>)
    requires Fits(limit, 1 + Height(below), 0) && Skip(s) != [] && Skip(s)[0] == Closer(obj)
    ensures Closing(Push(if obj then ObjectFirst else ArrayFirst, below), s, limit) ==
            Closing(below, Skip(s)[1..], limit)
  {
    hide ReadItems, Skip;
    NeverCloses(s, obj, true);
  }

  lemma ArrayFirstStep(below: Stack<Frame>, s: bytes, limit: Option<nat>)
    requires Fits(limit, 1 + Height(below), 0) && (Skip(s) != [] ==> Skip(s)[0] != CLOSE_BRACKET)
    ensures Closing(Push(ArrayFirst, below), s, limit) == Expecting(Push(ArrayComma, below), Skip(s), limit)
  {
    hide ItemsRest, BodyRest, AfterRest, Skip;
    ElementStep(s, true, limit, 1 + Height(below));
    SkipTwice(s);
  }

  lemma {:induction false} ArrayCommaStep(below: Stack<Frame>, s: bytes, limit: Option<nat>)
    requires Fits(limit, 1 + Height(below), 0)
    ensures var u := Skip(s);
            Closing(Push(ArrayComma, below), s, limit) ==
            if u == [] then None
            else if u[0] == COMMA then Expecting(Push(ArrayComma, below), u[1..], limit)
            else if u[0] == CLOSE_BRACKET then Closing(below, u[1..], limit)
            else None
  {
    hide AfterRest, BodyRest, Skip;
    AfterElement(Skip(s), limit, 1 + Height(below));
  }

  /** After an element: a comma and another one, or the end. */
  lemma {:induction false} AfterElement(u: bytes, limit: Option<nat>, h: nat)
    requires Fits(limit, h, 0)
    ensures AfterRest(u, false, limit, h) ==
            if u == [] then None
            else if u[0] == COMMA then
              (var t := BodyRest(Skip(u[1..]), limit, h);
               if t.None? then None else AfterRest(Skip(t.value), false, limit, h))
            else if u[0] == CLOSE_BRACKET then Some(u[1..])
            else None
  {
    hide ReadItems, BodyRest, Skip, DepthItems;
    if u != [] && u[0] == COMMA {
      if Skip(u[1..]) != [] && Skip(u[1..])[0] == CLOSE_BRACKET {
        NeverCloses(u[1..], false, false);
        NoBody(Skip(u[1..]), limit, h);
      } else {
        ElementStep(u[1..], false, limit, h);
      }
    }
  }

  lemma NoBody(s: bytes, limit: Option<nat>, h: nat)
    requires s != [] && (s[0] == CLOSE_BRACE || s[0] == CLOSE_BRACKET)
    ensures BodyRest(s, limit, h).None?
  {
    assert s[0] == s[..1][0];
  }

  lemma {:induction false} ObjectNameStep(first: bool, below: Stack<Frame>, s: bytes, limit: Option<nat>)
    requires Fits(limit, 1 + Height(below), 0)
    requires first ==> Skip(s) != [] ==> Skip(s)[0] != CLOSE_BRACE
    ensures var u := Skip(s);
            Closing(Push(if first then ObjectFirst else ObjectKey, below), s, limit) ==
            if u == [] || u[0] != QUOTE || StringTail(u[1..]).None? then None
            else Closing(Push(ObjectColon, below), u[1 + StringTail(u[1..]).value..], limit)
  {
    hide ItemsRest, BodyRest, AfterRest, Skip, StringTail;
    if Skip(s) != [] && Skip(s)[0] == CLOSE_BRACE {
      NothingRest(s, limit, 1 + Height(below));
    } else {
      MemberStep(s, first, limit, 1 + Height(below));
    }
  }

  lemma NothingRest(s: bytes, limit: Option<nat>, h: nat)
    requires Skip(s) != [] && Skip(s)[0] == CLOSE_BRACE
    ensures ItemsRest(s, true, false, limit, h).None?
  {
    hide ReadItems, Skip;
    NeverCloses(s, true, false);
  }

  lemma ObjectColonStep(below: Stack<Frame>, s: bytes, limit: Option<nat>)
    ensures var u := Skip(s);
            Closing(Push(ObjectColon, below), s, limit) ==
            if u == [] || u[0] != COLON then None else Expecting(Push(ObjectComma, below), u[1..], limit)
  {
    hide BodyRest, AfterRest, Skip;
  }

  lemma ObjectCommaStep(below: Stack<Frame>, s: bytes, limit: Option<nat>)
    ensures var u := Skip(s);
            Closing(Push(ObjectComma, below), s, limit) ==
            if u == [] then None
            else if u[0] == COMMA then Closing(Push(ObjectKey, below), u[1..], limit)
            else if u[0] == CLOSE_BRACE then Closing(below, u[1..], limit)
            else None
  {
    hide ReadItems, Skip, DepthItems;
  }

  method WalkFrame(c: Cursor, limit: Option<nat>, frame: Frame, below: Stack<Frame>)
    returns (ok: bool, r: Stack<Frame>, value: bool)
    requires c.Valid() && Fits(limit, 1 + Height(below), 0)
    modifies c`at
    ensures c.Valid()
    ensures ok ==> (c.at > old(c.at) || (c.at == old(c.at) && value)) && Fits(limit, Height(r), 0)
    ensures ok ==> Walk(r, value, c.Left(), limit) == old(Closing(Push(frame, below), c.Left(), limit))
    ensures !ok ==> old(Closing(Push(frame, below), c.Left(), limit)).None?
  {
    hide Closing, Expecting, Skip, SpaceLen, StringTail;
    ghost var s := c.Left();
    c.Space();
    ghost var u := c.Left();
    assert u == Skip(s);
    var b := if c.at < |c.text| then c.text[c.at] else 0;
    assert u != [] ==> b == u[0] && u[1..] == c.text[c.at + 1..];
    value, r, ok := false, below, true;
    match frame {
      case ArrayFirst =>
        if b == CLOSE_BRACKET {
          CloseStep(false, below, s, limit);
          c.at := c.at + 1;
        } else {
          ArrayFirstStep(below, s, limit);
          r, value := Push(ArrayComma, below), true;
        }
      case ArrayComma =>
        ArrayCommaStep(below, s, limit);
        if b == COMMA {
          c.at := c.at + 1;
          r, value := Push(ArrayComma, below), true;
        } else if b == CLOSE_BRACKET {
          c.at := c.at + 1;
        } else {
          ok := false;
        }
      case ObjectFirst =>
        if b == CLOSE_BRACE {
          CloseStep(true, below, s, limit);
          c.at := c.at + 1;
        } else {
          ObjectNameStep(true, below, s, limit);
          ghost var from := c.at;
          ok := c.Quoted();
          r := Push(ObjectColon, below);
          assert ok ==> c.Left() == u[c.at - from..];
        }
      case ObjectKey =>
        ObjectNameStep(false, below, s, limit);
        ghost var from := c.at;
        ok := c.Quoted();
        r := Push(ObjectColon, below);
        assert ok ==> c.Left() == u[c.at - from..];
      case ObjectColon =>
        ObjectColonStep(below, s, limit);
        ok := c.Take(COLON);
        r, value := Push(ObjectComma, below), true;
      case ObjectComma =>
        ObjectCommaStep(below, s, limit);
        if b == COMMA {
          c.at := c.at + 1;
          r := Push(ObjectKey, below);
        } else if b == CLOSE_BRACE {
          c.at := c.at + 1;
        } else {
          ok := false;
        }
    }
  }

  /** Read one value; `start` is where it begins. */
  method ValueWithDepth(c: Cursor, limit: Option<nat>) returns (ok: bool, start: nat)
    requires c.Valid()
    modifies c`at
    ensures c.Valid() && (ok ==> start <= c.at)
    ensures ok <==> BodyRest(Skip(old(c.Left())), limit, 0).Some?
    ensures start == old(c.at) + SpaceLen(old(c.Left()))
    ensures ok ==> c.Left() == BodyRest(Skip(old(c.Left())), limit, 0).value
  {
    hide Closing, Expecting, Skip, SpaceLen, BodyRest;
    c.Space();
    start := c.at;
    ghost var s := c.Left();
    var frames: Stack<Frame> := Empty;
    var value := true;
    WalkStart(s, limit, old(c.Left()));
    while true
      invariant c.Valid() && start <= c.at && Fits(limit, Height(frames), 0)
      invariant Walk(frames, value, c.Left(), limit) == BodyRest(s, limit, 0)
      decreases |c.text| - c.at, !value
    {
      if value {
        ok, frames := WalkValue(c, limit, frames);
        if !ok { return; }
        value := false;
      }
      if frames.Empty? {
        WalkEnd(c.Left(), limit);
        return true, start;
      }
      ok, frames, value := WalkFrame(c, limit, frames.top, frames.below);
      if !ok { return; }
    }
  }

  lemma WalkStart(s: bytes, limit: Option<nat>, t: bytes)
    requires s == Skip(t)
    ensures Fits(limit, 0, 0) && Walk(Empty, true, s, limit) == BodyRest(s, limit, 0)
  {
    hide BodyRest;
    SkipTwice(t);
  }

  lemma WalkEnd(s: bytes, limit: Option<nat>)
    ensures Closing(Empty, s, limit) == Some(s)
  {
  }
}
