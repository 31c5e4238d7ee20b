/** The byte-at-a-time JSON scanner: a state, and a stack of the open containers. */
module JsonScanner {
  import opened Bytes
  import opened Wrappers
  import opened Stacks
  import opened Lexemes
  import opened Syntax
  import opened Reader
  import opened Literals
  import opened Cursors
  import opened JsonText

  datatype State =
    | BeginValue | BeginValueOrEmpty | BeginString | BeginStringOrEmpty
    | InString | InEscape | InUnicode(left: nat)
    | AfterSign | AfterZero | InInteger | AfterDot | InFraction | AfterMark | AfterMarkSign | InExponent
    | InLiteral(word: bytes, next: nat)
    | EndValue | EndTop

  datatype Scope = InKey | InValue | InArray

  const LIMIT: Option<nat> := Some(MAX_DEPTH)

  // ----- what the rest of the text must be -----

  /** The open containers, once the key or value being read is over. */
  function After(scopes: Stack<Scope>): (r: Stack<Frame>)
    ensures Height(r) == Height(scopes)
  {
    match scopes
    case Empty => Empty
    case Push(scope, below) =>
      Push(match scope case InKey => ObjectColon case InValue => ObjectComma case InArray => ArrayComma, After(below))
  }

  /** Nothing but white space is left. */
  predicate Over(left: Option<bytes>) {
    left.Some? && Skip(left.value) == []
  }

  ghost predicate Ends(scopes: Stack<Scope>, s: bytes) {
    Over(Closing(After(scopes), s, LIMIT))
  }

  ghost predicate EndsAfter(scopes: Stack<Scope>, s: bytes, n: Option<nat>)
    requires n.Some? ==> n.value <= |s|
  {
    n.Some? && Ends(scopes, s[n.value..])
  }

  function Some1(n: nat): Option<nat> {
    if n == 0 then None else Some(n)
  }

  /** The width of what may follow the integer part of a number. */
  function TailLen(s: bytes): (n: Option<nat>)
    ensures n.Some? ==> n.value <= |s|
  {
    var f :- FractionLen(s);
    Plus(f, ExponentLen(s[f..]))
  }

  /** The width of the digits and exponent after a point. */
  function DecimalsLen(s: bytes, digits: nat): (n: Option<nat>)
    requires digits <= |s|
    ensures n.Some? ==> n.value <= |s|
  {
    Plus(digits, ExponentLen(s[digits..]))
  }

  /** The width of an exponent after its mark. */
  function PowerLen(s: bytes): (n: Option<nat>)
    ensures n.Some? ==> n.value <= |s|
  {
    var m := if s != [] && (s[0] == PLUS || s[0] == MINUS) then 1 else 0;
    Plus(m, Some1(DigitsLen(s[m..])))
  }

  predicate HexStart(s: bytes, n: nat) {
    n <= |s| && forall i :: 0 <= i < n ==> IsHex(s[i])
  }

  /** The text that may follow in this state. */
  ghost predicate Accepts(state: State, scopes: Stack<Scope>, s: bytes) {
    match state
    case BeginValue => Over(Expecting(After(scopes), s, LIMIT))
    case BeginValueOrEmpty => scopes.Push? && Over(Closing(Push(ArrayFirst, After(scopes.below)), s, LIMIT))
    case BeginStringOrEmpty => scopes.Push? && Over(Closing(Push(ObjectFirst, After(scopes.below)), s, LIMIT))
    case BeginString => scopes.Push? && Over(Closing(Push(ObjectKey, After(scopes.below)), s, LIMIT))
    case InString => EndsAfter(scopes, s, StringTail(s))
    case InEscape => EndsAfter(scopes, [BACKSLASH] + s, StringTail([BACKSLASH] + s))
    case InUnicode(left) => HexStart(s, left) && EndsAfter(scopes, s[left..], StringTail(s[left..]))
    case AfterSign =>
      IntegerLen(s).Some? && EndsAfter(scopes, s[IntegerLen(s).value..], TailLen(s[IntegerLen(s).value..]))
    case AfterZero => EndsAfter(scopes, s, TailLen(s))
    case InInteger => EndsAfter(scopes, s[DigitsLen(s)..], TailLen(s[DigitsLen(s)..]))
    case AfterDot => DigitsLen(s) > 0 && EndsAfter(scopes, s, DecimalsLen(s, DigitsLen(s)))
    case InFraction => EndsAfter(scopes, s, DecimalsLen(s, DigitsLen(s)))
    case AfterMark => EndsAfter(scopes, s, PowerLen(s))
    case AfterMarkSign => EndsAfter(scopes, s, Some1(DigitsLen(s)))
    case InExponent => EndsAfter(scopes, s, Some(DigitsLen(s)))
    case InLiteral(word, next) => next <= |word| && word[next..] <= s && Ends(scopes, s[|word| - next..])
    case EndValue => Ends(scopes, s)
    case EndTop => Skip(s) == []
  }

  // ----- the transitions -----

  /** An error, a change of state before the byte, or one that consumes it. */
  datatype Move = Fail | Again(state: State, scopes: Stack<Scope>) | Took(state: State, scopes: Stack<Scope>)

  function Open(scopes: Stack<Scope>, scope: Scope, state: State): Move {
    if Height(scopes) + 1 > MAX_DEPTH then Fail else Took(state, Push(scope, scopes))
  }

  function Pop(below: Stack<Scope>): Move {
    Took(if below.Empty? then EndTop else EndValue, below)
  }

  function NextBegin(b: byte, scopes: Stack<Scope>): Move {
    if IsSpace(b) then Took(BeginValue, scopes)
    else if b == OPEN_BRACE then Open(scopes, InKey, BeginStringOrEmpty)
    else if b == OPEN_BRACKET then Open(scopes, InArray, BeginValueOrEmpty)
    else if b == QUOTE then Took(InString, scopes)
    else if b == MINUS then Took(AfterSign, scopes)
    else if b == ZERO then Took(AfterZero, scopes)
    else if IsDigit(b) then Took(InInteger, scopes)
    else if b == TRUE[0] then Took(InLiteral(TRUE, 1), scopes)
    else if b == FALSE[0] then Took(InLiteral(FALSE, 1), scopes)
    else if b == NULL[0] then Took(InLiteral(NULL, 1), scopes)
    else Fail
  }

  function NextEnd(b: byte, scopes: Stack<Scope>): Move {
    match scopes
    case Empty => Again(EndTop, Empty)
    case Push(scope, below) =>
      if IsSpace(b) then Took(EndValue, scopes)
      else
        match scope
        case InKey => if b == COLON then Took(BeginValue, Push(InValue, below)) else Fail
        case InValue =>
          if b == COMMA then Took(BeginString, Push(InKey, below)) else if b == CLOSE_BRACE then Pop(below) else Fail
        case InArray => if b == COMMA then Took(BeginValue, scopes) else if b == CLOSE_BRACKET then Pop(below) else Fail
  }

  function NextText(state: State, b: byte, scopes: Stack<Scope>): Move
    requires state.InString? || state.InEscape? || state.InUnicode?
  {
    match state
    case InString =>
      if b == QUOTE then Took(EndValue, scopes) else if b == BACKSLASH then Took(InEscape, scopes)
      else if b < SPACE then Fail else Took(InString, scopes)
    case InEscape =>
      if IsSimpleEscape(b) then Took(InString, scopes) else if b == 0x75 then Took(InUnicode(4), scopes) else Fail
    case InUnicode(left) =>
      if !IsHex(b) then Fail else Took(if left <= 1 then InString else InUnicode(left - 1), scopes)
  }

  function NextNumber(state: State, b: byte, scopes: Stack<Scope>): Move {
    match state
    case AfterSign =>
      if b == ZERO then Took(AfterZero, scopes) else if IsDigit(b) then Took(InInteger, scopes) else Fail
    case InInteger => if IsDigit(b) then Took(InInteger, scopes) else Again(AfterZero, scopes)
    case AfterZero =>
      if b == DOT then Took(AfterDot, scopes) else if IsMark(b) then Took(AfterMark, scopes)
      else Again(EndValue, scopes)
    case AfterDot => if IsDigit(b) then Took(InFraction, scopes) else Fail
    case InFraction =>
      if IsDigit(b) then Took(InFraction, scopes) else if IsMark(b) then Took(AfterMark, scopes)
      else Again(EndValue, scopes)
    case AfterMark => if b == PLUS || b == MINUS then Took(AfterMarkSign, scopes) else Again(AfterMarkSign, scopes)
    case AfterMarkSign => if IsDigit(b) then Took(InExponent, scopes) else Fail
    case InExponent => if IsDigit(b) then Took(InExponent, scopes) else Again(EndValue, scopes)
    case _ => Fail
  }

  function Next(state: State, b: byte, scopes: Stack<Scope>): Move {
    match state
    case BeginValue => NextBegin(b, scopes)
    case BeginValueOrEmpty =>
      if IsSpace(b) then Took(state, scopes) else Again(if b == CLOSE_BRACKET then EndValue else BeginValue, scopes)
    case BeginStringOrEmpty =>
      if IsSpace(b) then Took(state, scopes)
      else if b == CLOSE_BRACE && scopes.Push? then Again(EndValue, Push(InValue, scopes.below))
      else Again(BeginString, scopes)
    case BeginString => if IsSpace(b) then Took(state, scopes) else if b == QUOTE then Took(InString, scopes) else Fail
    case InString => NextText(state, b, scopes)
    case InEscape => NextText(state, b, scopes)
    case InUnicode(_) => NextText(state, b, scopes)
    case InLiteral(word, next) =>
      if next >= |word| || b != word[next] then Fail
      else Took(if next + 1 == |word| then EndValue else InLiteral(word, next + 1), scopes)
    case EndValue => NextEnd(b, scopes)
    case EndTop => if IsSpace(b) then Took(EndTop, scopes) else Fail
    case _ => NextNumber(state, b, scopes)
  }

  /** The container on top fits the state. */
  predicate Fitting(state: State, scopes: Stack<Scope>) {
    && Height(scopes) <= MAX_DEPTH
    && (state.BeginValueOrEmpty? ==> scopes.Push? && scopes.top == InArray)
    && (state.BeginString? || state.BeginStringOrEmpty? ==> scopes.Push? && scopes.top == InKey)
    && (state.EndTop? ==> scopes.Empty?)
    && (state.InUnicode? ==> 1 <= state.left <= 4)
    && (state.InLiteral? ==>
        (state.word == TRUE || state.word == FALSE || state.word == NULL) && state.next < |state.word|)
  }

  /** The text before and after one move. */
  ghost predicate Keeps(state: State, scopes: Stack<Scope>, b: byte, s: bytes) {
    var move := Next(state, b, scopes);
    match move
    case Fail => !Accepts(state, scopes, [b] + s)
    case Again(state', scopes') =>
      Fitting(state', scopes') && (Accepts(state', scopes', [b] + s) <==> Accepts(state, scopes, [b] + s))
    case Took(state', scopes') =>
      Fitting(state', scopes') && (Accepts(state', scopes', s) <==> Accepts(state, scopes, [b] + s))
  }

  // ----- strings -----

  lemma Drop(b: byte, s: bytes, n: nat)
    requires n <= |s|
    ensures ([b] + s)[n + 1..] == s[n..]
  {
  }

  lemma TextKeeps(state: State, scopes: Stack<Scope>, b: byte, s: bytes)
    requires (state.InString? || state.InEscape?) && Fitting(state, scopes)
    ensures Keeps(state, scopes, b, s)
  {
    TextFits(state, scopes);
    if state.InString? {
      StringMoves(scopes, b, s);
    } else {
      EscapeMoves(scopes, b, s);
    }
  }

  lemma StringMoves(scopes: Stack<Scope>, b: byte, s: bytes)
    requires Fitting(EndValue, scopes) && Fitting(InString, scopes) && Fitting(InEscape, scopes)
    ensures Keeps(InString, scopes, b, s)
  {
    hide Accepts, Next, Ends, Fitting, EndsAfter, StringTail;
    if b != BACKSLASH {
      TextStep(scopes, b, s);
    }
    NextInText(b, scopes);
    InsideText(0, scopes, [b] + s);
    InsideText(0, scopes, s);
    InsideLiteral([], 0, scopes, s);
    InsideEscape(scopes, s);
  }

  /** One byte of a string. */
  lemma TextStep(scopes: Stack<Scope>, b: byte, s: bytes)
    requires b != BACKSLASH
    ensures var t := [b] + s;
            EndsAfter(scopes, t, StringTail(t)) <==>
            if b == QUOTE then Ends(scopes, s) else b >= SPACE && EndsAfter(scopes, s, StringTail(s))
  {
    hide Ends;
    var t := [b] + s;
    assert t[1..] == s;
    if StringTail(s).Some? {
      Drop(b, s, StringTail(s).value);
    }
  }

  lemma EscapeMoves(scopes: Stack<Scope>, b: byte, s: bytes)
    requires Fitting(InString, scopes) && Fitting(InUnicode(4), scopes)
    ensures Keeps(InEscape, scopes, b, s)
  {
    hide Accepts, Next, EndsAfter, StringTail, Fitting, HexStart, IsSimpleEscape;
    EscapeKeeps(scopes, b, s);
    NextInText(b, scopes);
    InsideText(4, scopes, s);
    InsideEscape(scopes, [b] + s);
  }

  lemma NextInText(b: byte, scopes: Stack<Scope>)
    ensures Next(InString, b, scopes) ==
            if b == QUOTE then Took(EndValue, scopes) else if b == BACKSLASH then Took(InEscape, scopes)
            else if b < SPACE then Fail else Took(InString, scopes)
    ensures Next(InEscape, b, scopes) ==
            if IsSimpleEscape(b) then Took(InString, scopes) else if b == 0x75 then Took(InUnicode(4), scopes) else Fail
  {
  }

  lemma InsideEscape(scopes: Stack<Scope>, s: bytes)
    ensures var t := [BACKSLASH] + s; Accepts(InEscape, scopes, s) <==> EndsAfter(scopes, t, StringTail(t))
  {
    hide EndsAfter, StringTail;
  }

  lemma TextFits(state: State, scopes: Stack<Scope>)
    requires (state.InString? || state.InEscape?) && Fitting(state, scopes)
    ensures Fitting(EndValue, scopes) && Fitting(InString, scopes) && Fitting(InEscape, scopes)
            && Fitting(InUnicode(4), scopes)
  {
  }

  lemma {:induction false} EscapeKeeps(scopes: Stack<Scope>, b: byte, s: bytes)
    ensures var t := [BACKSLASH] + ([b] + s);
            EndsAfter(scopes, t, StringTail(t)) <==>
            if IsSimpleEscape(b) then EndsAfter(scopes, s, StringTail(s))
            else b == 0x75 && HexStart(s, 4) && EndsAfter(scopes, s[4..], StringTail(s[4..]))
  {
    hide Ends;
    var t := [BACKSLASH] + ([b] + s);
    assert t[1] == b && t[2..] == s;
    assert |s| >= 4 ==> t[2] == s[0] && t[3] == s[1] && t[4] == s[2] && t[5] == s[3] && t[6..] == s[4..];
    if IsSimpleEscape(b) {
      assert UnitLen(t) == 2;
      if StringTail(s).Some? {
        assert t[2 + StringTail(s).value..] == s[StringTail(s).value..];
      }
    } else if b == 0x75 && HexStart(s, 4) {
      assert UnitLen(t) == 6;
      if StringTail(s[4..]).Some? {
        assert t[6 + StringTail(s[4..]).value..] == s[4..][StringTail(s[4..]).value..];
      }
    } else {
      assert UnitLen(t) == 0;
    }
  }

  lemma HexStep(b: byte, s: bytes, n: nat)
    requires n > 0
    ensures HexStart([b] + s, n) <==> IsHex(b) && HexStart(s, n - 1)
  {
    hide IsHex;
    var t := [b] + s;
    if HexStart(t, n) {
      assert IsHex(t[0]);
      forall i | 0 <= i < n - 1 ensures IsHex(s[i]) {
        assert IsHex(t[i + 1]);
      }
    }
  }

  lemma UnicodeKeeps(state: State, scopes: Stack<Scope>, b: byte, s: bytes)
    requires state.InUnicode? && Fitting(state, scopes)
    ensures Keeps(state, scopes, b, s)
  {
    hide Accepts, Next, EndsAfter, StringTail, IsHex;
    var n := state.left;
    var t := [b] + s;
    NextUnicode(n, b, scopes);
    InsideText(n, scopes, t);
    HexStep(b, s, n);
    if n <= |t| {
      assert t[n..] == s[n - 1..];
    }
    assert s[0..] == s;
    InsideText(n - 1, scopes, s);
  }

  lemma NextUnicode(n: nat, b: byte, scopes: Stack<Scope>)
    ensures Next(InUnicode(n), b, scopes) ==
            if !IsHex(b) then Fail else Took(if n <= 1 then InString else InUnicode(n - 1), scopes)
  {
  }

  lemma InsideText(n: nat, scopes: Stack<Scope>, s: bytes)
    ensures Accepts(InString, scopes, s) <==> EndsAfter(scopes, s, StringTail(s))
    ensures Accepts(InUnicode(n), scopes, s) <==> HexStart(s, n) && EndsAfter(scopes, s[n..], StringTail(s[n..]))
  {
    hide EndsAfter, StringTail;
  }

  lemma LiteralKeeps(state: State, scopes: Stack<Scope>, b: byte, s: bytes)
    requires state.InLiteral? && Fitting(state, scopes)
    ensures Keeps(state, scopes, b, s)
  {
    hide Accepts, Next, Ends, Fitting;
    var (word, next) := (state.word, state.next);
    LiteralFits(state, scopes);
    NextLiteral(word, next, b, scopes);
    InsideLiteral(word, next, scopes, [b] + s);
    InsideLiteral(word, next + 1, scopes, s);
    var w := word[next..];
    WordStart(w, b, s);
    assert w[0] == word[next] && w[1..] == word[next + 1..] && |w| == |word| - next;
    if next + 1 == |word| {
      assert w[1..] == [] && s[0..] == s;
    }
  }

  lemma NextLiteral(word: bytes, next: nat, b: byte, scopes: Stack<Scope>)
    requires next < |word|
    ensures Next(InLiteral(word, next), b, scopes) ==
            if b != word[next] then Fail
            else Took(if next + 1 == |word| then EndValue else InLiteral(word, next + 1), scopes)
  {
  }

  lemma InsideLiteral(word: bytes, next: nat, scopes: Stack<Scope>, s: bytes)
    requires next <= |word|
    ensures Accepts(EndValue, scopes, s) <==> Ends(scopes, s)
    ensures Accepts(InLiteral(word, next), scopes, s) <==> word[next..] <= s && Ends(scopes, s[|word| - next..])
  {
    hide Ends;
  }

  lemma LiteralFits(state: State, scopes: Stack<Scope>)
    requires state.InLiteral? && Fitting(state, scopes)
    ensures state.next < |state.word| && Fitting(EndValue, scopes)
    ensures state.next + 1 < |state.word| ==> Fitting(InLiteral(state.word, state.next + 1), scopes)
  {
  }

  // ----- numbers -----

  predicate IsNumeric(state: State) {
    || state.AfterSign? || state.InInteger? || state.AfterZero? || state.AfterDot? || state.InFraction?
    || state.AfterMark? || state.AfterMarkSign? || state.InExponent?
  }

  lemma DigitsStep(b: byte, s: bytes)
    ensures DigitsLen([b] + s) == if IsDigit(b) then 1 + DigitsLen(s) else 0
  {
    assert ([b] + s)[1..] == s;
  }

  /** Ending after what follows a byte. */
  lemma AfterByte(scopes: Stack<Scope>, b: byte, s: bytes, n: Option<nat>)
    requires n.Some? ==> n.value <= |s|
    ensures EndsAfter(scopes, [b] + s, Plus(1, n)) <==> EndsAfter(scopes, s, n)
  {
    if n.Some? {
      Drop(b, s, n.value);
    }
  }

  lemma NumberKeeps(state: State, scopes: Stack<Scope>, b: byte, s: bytes)
    requires IsNumeric(state) && Fitting(state, scopes)
    ensures Keeps(state, scopes, b, s)
  {
    hide Keeps;
    if state.AfterSign? || state.InInteger? || state.AfterZero? {
      IntegerKeeps(state, scopes, b, s);
    } else {
      DecimalsKeep(state, scopes, b, s);
    }
  }

  lemma IntegerKeeps(state: State, scopes: Stack<Scope>, b: byte, s: bytes)
    requires (state.AfterSign? || state.InInteger? || state.AfterZero?) && Fitting(state, scopes)
    ensures Keeps(state, scopes, b, s)
  {
    hide DigitsLen, Ends, TailLen, DecimalsLen, PowerLen, EndsAfter;
    var t := [b] + s;
    DigitsStep(b, s);
    assert t[1..] == s && t[0..] == t;
    if state.AfterZero? {
      ZeroKeeps(scopes, b, s);
    } else if IsDigit(b) {
      Drop(b, s, DigitsLen(s));
    }
  }

  lemma DecimalsKeep(state: State, scopes: Stack<Scope>, b: byte, s: bytes)
    requires (state.AfterDot? || state.InFraction? || state.AfterMark? || state.AfterMarkSign? || state.InExponent?)
             && Fitting(state, scopes)
    ensures Keeps(state, scopes, b, s)
  {
    hide DigitsLen, Ends, TailLen, DecimalsLen, PowerLen, EndsAfter, Some1;
    DigitsStep(b, s);
    FractionKeeps(scopes, b, s);
    MarkKeeps(scopes, b, s);
    ExponentKeeps(scopes, b, s);
  }

  lemma ZeroKeeps(scopes: Stack<Scope>, b: byte, s: bytes)
    ensures EndsAfter(scopes, [b] + s, TailLen([b] + s)) <==>
            if b == DOT then DigitsLen(s) > 0 && EndsAfter(scopes, s, DecimalsLen(s, DigitsLen(s)))
            else if IsMark(b) then EndsAfter(scopes, s, PowerLen(s))
            else Ends(scopes, [b] + s)
  {
    hide DigitsLen, EndsAfter, TailLen, DecimalsLen, PowerLen;
    var t := [b] + s;
    if b == DOT {
      DotStep(s);
      AfterByte(scopes, b, s, if DigitsLen(s) == 0 then None else DecimalsLen(s, DigitsLen(s)));
      NeverEnds(scopes, s);
    } else if IsMark(b) {
      PowerStep(b, s);
      AfterByte(scopes, b, s, PowerLen(s));
    } else {
      NoTail(scopes, t);
    }
  }

  lemma NeverEnds(scopes: Stack<Scope>, s: bytes)
    ensures !EndsAfter(scopes, s, None)
  {
  }

  lemma NoTail(scopes: Stack<Scope>, t: bytes)
    requires t != [] && t[0] != DOT && !IsMark(t[0])
    ensures EndsAfter(scopes, t, TailLen(t)) <==> Ends(scopes, t)
  {
    hide Ends;
    assert t[0..] == t;
  }

  lemma DotStep(s: bytes)
    ensures TailLen([DOT] + s) == Plus(1, if DigitsLen(s) == 0 then None else DecimalsLen(s, DigitsLen(s)))
  {
    hide DigitsLen, ExponentLen;
    var t := [DOT] + s;
    assert t[1..] == s;
    Drop(DOT, s, DigitsLen(s));
  }

  lemma PowerStep(b: byte, s: bytes)
    requires IsMark(b)
    ensures ExponentLen([b] + s) == Plus(1, PowerLen(s)) && TailLen([b] + s) == Plus(1, PowerLen(s))
  {
    hide DigitsLen;
    var t := [b] + s;
    assert t[1..] == s && t[0..] == t;
    if s != [] {
      assert t[1] == s[0] && t[2..] == s[1..];
    }
  }

  lemma FractionKeeps(scopes: Stack<Scope>, b: byte, s: bytes)
    ensures EndsAfter(scopes, [b] + s, DecimalsLen([b] + s, DigitsLen([b] + s))) <==>
            if IsDigit(b) then EndsAfter(scopes, s, DecimalsLen(s, DigitsLen(s)))
            else if IsMark(b) then EndsAfter(scopes, s, PowerLen(s))
            else Ends(scopes, [b] + s)
  {
    hide DigitsLen, Ends;
    var t := [b] + s;
    DigitsStep(b, s);
    assert t[0..] == t;
    if IsDigit(b) {
      Drop(b, s, DigitsLen(s));
      AfterByte(scopes, b, s, DecimalsLen(s, DigitsLen(s)));
    } else if IsMark(b) {
      PowerStep(b, s);
      AfterByte(scopes, b, s, PowerLen(s));
    }
  }

  lemma MarkKeeps(scopes: Stack<Scope>, b: byte, s: bytes)
    ensures EndsAfter(scopes, [b] + s, PowerLen([b] + s)) <==>
            if b == PLUS || b == MINUS then EndsAfter(scopes, s, Some1(DigitsLen(s)))
            else EndsAfter(scopes, [b] + s, Some1(DigitsLen([b] + s)))
  {
    hide DigitsLen, Ends;
    var t := [b] + s;
    assert t[1..] == s && t[0..] == t;
    if b == PLUS || b == MINUS {
      AfterByte(scopes, b, s, Some1(DigitsLen(s)));
    }
  }

  lemma ExponentKeeps(scopes: Stack<Scope>, b: byte, s: bytes)
    ensures EndsAfter(scopes, [b] + s, Some1(DigitsLen([b] + s))) <==>
            IsDigit(b) && EndsAfter(scopes, s, Some(DigitsLen(s)))
    ensures EndsAfter(scopes, [b] + s, Some(DigitsLen([b] + s))) <==>
            if IsDigit(b) then EndsAfter(scopes, s, Some(DigitsLen(s))) else Ends(scopes, [b] + s)
  {
    hide DigitsLen, Ends;
    DigitsStep(b, s);
    assert ([b] + s)[0..] == [b] + s;
    AfterByte(scopes, b, s, Some(DigitsLen(s)));
  }

  // ----- where a value or a key begins -----

  lemma SkipByte(b: byte, s: bytes)
    ensures Skip([b] + s) == if IsSpace(b) then Skip(s) else [b] + s
  {
    assert ([b] + s)[1..] == s;
    if IsSpace(b) {
      SkipOne([b] + s);
    }
  }

  lemma BeginKeeps(scopes: Stack<Scope>, b: byte, s: bytes)
    requires Fitting(BeginValue, scopes)
    ensures Keeps(BeginValue, scopes, b, s)
  {
    hide Keeps;
    if IsSpace(b) || b == OPEN_BRACE || b == OPEN_BRACKET {
      OpenKeeps(scopes, b, s);
    } else {
      ScalarKeeps(scopes, b, s);
    }
  }

  lemma OpenKeeps(scopes: Stack<Scope>, b: byte, s: bytes)
    requires Fitting(BeginValue, scopes) && (IsSpace(b) || b == OPEN_BRACE || b == OPEN_BRACKET)
    ensures Keeps(BeginValue, scopes, b, s)
  {
    hide Expecting, Closing, Skip;
    var t, frames := [b] + s, After(scopes);
    assert t[1..] == s;
    SkipByte(b, s);
    if IsSpace(b) {
      ExpectingSkip(frames, t, LIMIT);
      ExpectingSkip(frames, s, LIMIT);
    } else {
      OpenStep(frames, t, LIMIT);
    }
  }

  lemma ScalarKeeps(scopes: Stack<Scope>, b: byte, s: bytes)
    requires Fitting(BeginValue, scopes) && !IsSpace(b) && b != OPEN_BRACE && b != OPEN_BRACKET
    ensures Keeps(BeginValue, scopes, b, s)
  {
    hide Expecting, Closing, Skip, Ends, EndsAfter, NumberLen, StringTail, TailLen, IntegerLen, TokenLen, DigitsLen;
    var t := [b] + s;
    TokenStep(After(scopes), t, LIMIT);
    TokenEnds(scopes, t);
    TokenKeeps(scopes, b, s);
    if b == MINUS || IsDigit(b) {
      NumberStarts(scopes, b, s);
    }
  }

  lemma TokenEnds(scopes: Stack<Scope>, t: bytes)
    ensures EndsAfter(scopes, t, TokenLen(t)) <==>
            TokenLen(t).Some? && Over(Closing(After(scopes), t[TokenLen(t).value..], LIMIT))
  {
    hide Closing, TokenLen;
  }

  lemma NumberStarts(scopes: Stack<Scope>, b: byte, s: bytes)
    requires b == MINUS || IsDigit(b)
    ensures EndsAfter(scopes, [b] + s, NumberLen([b] + s)) <==>
            if b == MINUS then
              IntegerLen(s).Some? && EndsAfter(scopes, s[IntegerLen(s).value..], TailLen(s[IntegerLen(s).value..]))
            else if b == ZERO then EndsAfter(scopes, s, TailLen(s))
            else EndsAfter(scopes, s[DigitsLen(s)..], TailLen(s[DigitsLen(s)..]))
  {
    hide DigitsLen, TailLen, EndsAfter, NumberLen;
    var t := [b] + s;
    assert t[0..] == t && t[1..] == s;
    DigitsStep(b, s);
    NumberParts(scopes, t);
    if b == MINUS {
      if IntegerLen(s).Some? {
        Drop(b, s, IntegerLen(s).value);
      }
    } else {
      Drop(b, s, DigitsLen(s));
    }
  }

  lemma NumberParts(scopes: Stack<Scope>, t: bytes)
    ensures var m := if t != [] && t[0] == MINUS then 1 else 0;
            var i := IntegerLen(t[m..]);
            EndsAfter(scopes, t, NumberLen(t)) <==>
            i.Some? && EndsAfter(scopes, t[m + i.value..], TailLen(t[m + i.value..]))
  {
    hide IntegerLen, FractionLen, ExponentLen, Ends;
    var m := if t != [] && t[0] == MINUS then 1 else 0;
    var i := IntegerLen(t[m..]);
    if i.Some? {
      var u := t[m + i.value..];
      if FractionLen(u).Some? {
        var f := FractionLen(u).value;
        assert u[f..] == t[m + i.value + f..];
        if ExponentLen(u[f..]).Some? {
          var n := f + ExponentLen(u[f..]).value;
          assert u[n..] == t[m + i.value + n..];
        }
      }
    }
  }

  /** What a token that starts with this byte leaves to read. */
  lemma TokenKeeps(scopes: Stack<Scope>, b: byte, s: bytes)
    requires !IsSpace(b) && b != OPEN_BRACE && b != OPEN_BRACKET
    ensures EndsAfter(scopes, [b] + s, TokenLen([b] + s)) <==>
            if b == QUOTE then EndsAfter(scopes, s, StringTail(s))
            else if b == MINUS || IsDigit(b) then EndsAfter(scopes, [b] + s, NumberLen([b] + s))
            else if b == TRUE[0] then TRUE[1..] <= s && Ends(scopes, s[3..])
            else if b == FALSE[0] then FALSE[1..] <= s && Ends(scopes, s[4..])
            else b == NULL[0] && NULL[1..] <= s && Ends(scopes, s[3..])
  {
    hide Ends, NumberLen, StringTail;
    var t := [b] + s;
    assert t[1..] == s;
    if b == QUOTE {
      AfterByte(scopes, b, s, StringTail(s));
    } else {
      WordStart(TRUE, b, s);
      WordStart(FALSE, b, s);
      WordStart(NULL, b, s);
    }
  }

  lemma WordStart(word: bytes, b: byte, s: bytes)
    requires word != []
    ensures word <= [b] + s <==> b == word[0] && word[1..] <= s
    ensures word <= [b] + s ==> ([b] + s)[|word|..] == s[|word| - 1..]
  {
    var t := [b] + s;
    if word <= t {
      assert word[0] == t[0] && word[1..] == t[1..][..|word| - 1] && t[1..] == s;
    }
    if b == word[0] && word[1..] <= s {
      assert word == [b] + word[1..];
      assert t == word + s[|word| - 1..];
    }
  }

  lemma OrEmptyKeeps(scopes: Stack<Scope>, b: byte, s: bytes)
    requires Fitting(BeginValueOrEmpty, scopes)
    ensures Keeps(BeginValueOrEmpty, scopes, b, s)
  {
    hide Expecting, Closing, Skip;
    var t, below := [b] + s, After(scopes.below);
    SkipByte(b, s);
    if IsSpace(b) {
      if Skip(s) != [] && Skip(s)[0] == CLOSE_BRACKET {
        CloseStep(false, below, t, LIMIT);
        CloseStep(false, below, s, LIMIT);
      } else {
        ArrayFirstStep(below, t, LIMIT);
        ArrayFirstStep(below, s, LIMIT);
      }
    } else if b == CLOSE_BRACKET {
      CloseStep(false, below, t, LIMIT);
      ArrayCommaStep(below, t, LIMIT);
    } else {
      ArrayFirstStep(below, t, LIMIT);
    }
  }

  lemma StringOrEmptyKeeps(scopes: Stack<Scope>, b: byte, s: bytes)
    requires Fitting(BeginStringOrEmpty, scopes)
    ensures Keeps(BeginStringOrEmpty, scopes, b, s)
  {
    hide Closing, Skip, StringTail;
    var t, below := [b] + s, After(scopes.below);
    SkipByte(b, s);
    if IsSpace(b) {
      if Skip(s) != [] && Skip(s)[0] == CLOSE_BRACE {
        CloseStep(true, below, t, LIMIT);
        CloseStep(true, below, s, LIMIT);
      } else {
        ObjectNameStep(true, below, t, LIMIT);
        ObjectNameStep(true, below, s, LIMIT);
      }
    } else if b == CLOSE_BRACE {
      CloseStep(true, below, t, LIMIT);
      ObjectCommaStep(below, t, LIMIT);
    } else {
      ObjectNameStep(true, below, t, LIMIT);
      ObjectNameStep(false, below, t, LIMIT);
    }
  }

  lemma StringKeeps(scopes: Stack<Scope>, b: byte, s: bytes)
    requires Fitting(BeginString, scopes)
    ensures Keeps(BeginString, scopes, b, s)
  {
    hide Closing, Skip, StringTail;
    var t, below := [b] + s, After(scopes.below);
    SkipByte(b, s);
    assert t[1..] == s;
    ObjectNameStep(false, below, t, LIMIT);
    if IsSpace(b) {
      ObjectNameStep(false, below, s, LIMIT);
    } else if b == QUOTE && StringTail(s).Some? {
      Drop(b, s, StringTail(s).value);
    }
  }

  // ----- where a value or a key ends -----

  lemma EndKeeps(scopes: Stack<Scope>, b: byte, s: bytes)
    requires Fitting(EndValue, scopes)
    ensures Keeps(EndValue, scopes, b, s)
  {
    hide Keeps, Fitting;
    match scopes
    case Empty => EndOutside(b, s);
    case Push(InKey, _) => EndKey(scopes, b, s);
    case Push(InValue, _) => EndMember(scopes, b, s);
    case Push(InArray, _) => EndElement(scopes, b, s);
  }

  lemma EndOutside(b: byte, s: bytes)
    ensures Keeps(EndValue, Empty, b, s)
  {
    hide Expecting, Closing, Skip;
    SkipByte(b, s);
    WalkEnd([b] + s, LIMIT);
  }

  lemma EndKey(scopes: Stack<Scope>, b: byte, s: bytes)
    requires Fitting(EndValue, scopes) && scopes.Push? && scopes.top == InKey
    ensures Keeps(EndValue, scopes, b, s)
  {
    hide Expecting, Closing, Skip;
    SkipByte(b, s);
    assert ([b] + s)[1..] == s;
    ObjectColonStep(After(scopes.below), [b] + s, LIMIT);
    ObjectColonStep(After(scopes.below), s, LIMIT);
  }

  lemma EndMember(scopes: Stack<Scope>, b: byte, s: bytes)
    requires Fitting(EndValue, scopes) && scopes.Push? && scopes.top == InValue
    ensures Keeps(EndValue, scopes, b, s)
  {
    hide Expecting, Closing, Skip;
    SkipByte(b, s);
    assert ([b] + s)[1..] == s;
    WalkEnd(s, LIMIT);
    ObjectCommaStep(After(scopes.below), [b] + s, LIMIT);
    ObjectCommaStep(After(scopes.below), s, LIMIT);
  }

  lemma EndElement(scopes: Stack<Scope>, b: byte, s: bytes)
    requires Fitting(EndValue, scopes) && scopes.Push? && scopes.top == InArray
    ensures Keeps(EndValue, scopes, b, s)
  {
    hide Expecting, Closing, Skip;
    SkipByte(b, s);
    assert ([b] + s)[1..] == s;
    WalkEnd(s, LIMIT);
    ArrayCommaStep(After(scopes.below), [b] + s, LIMIT);
    ArrayCommaStep(After(scopes.below), s, LIMIT);
  }

  lemma TopKeeps(scopes: Stack<Scope>, b: byte, s: bytes)
    requires Fitting(EndTop, scopes)
    ensures Keeps(EndTop, scopes, b, s)
  {
    hide Skip;
    SkipByte(b, s);
  }

  /** Every move keeps what is accepted. */
  lemma NextKeeps(state: State, scopes: Stack<Scope>, b: byte, s: bytes)
    requires Fitting(state, scopes)
    ensures Keeps(state, scopes, b, s)
  {
    hide Keeps;
    match state
    case BeginValue => BeginKeeps(scopes, b, s);
    case BeginValueOrEmpty => OrEmptyKeeps(scopes, b, s);
    case BeginString => StringKeeps(scopes, b, s);
    case BeginStringOrEmpty => StringOrEmptyKeeps(scopes, b, s);
    case InString => TextKeeps(state, scopes, b, s);
    case InEscape => TextKeeps(state, scopes, b, s);
    case InUnicode(_) => UnicodeKeeps(state, scopes, b, s);
    case InLiteral(_, _) => LiteralKeeps(state, scopes, b, s);
    case EndValue => EndKeeps(scopes, b, s);
    case EndTop => TopKeeps(scopes, b, s);
    case _ => NumberKeeps(state, scopes, b, s);
  }

  // ----- the scanner -----

  /** How many changes of state one byte can still cause. */
  function Rank(state: State): nat {
    match state
    case BeginValueOrEmpty => 3
    case BeginStringOrEmpty => 3
    case InInteger => 3
    case AfterZero => 2
    case InFraction => 2
    case AfterMark => 2
    case InExponent => 2
    case EndValue => 1
    case BeginValue => 1
    case BeginString => 1
    case AfterMarkSign => 1
    case _ => 0
  }

  /** The states a white space byte can lead to. */
  predicate Idle(state: State, scopes: Stack<Scope>) {
    || state.BeginValue? || state.BeginValueOrEmpty? || state.BeginString? || state.BeginStringOrEmpty?
    || state.InString? || state.EndTop? || (state.EndValue? && scopes.Push?)
  }

  class Scanner {
    var state: State
    var scopes: Stack<Scope>
    var endTop: bool

    constructor ()
      ensures Valid() && state == BeginValue && scopes == Empty
    {
      state, scopes, endTop := BeginValue, Empty, false;
    }

    predicate Valid()
      reads this
    {
      Fitting(state, scopes) && endTop == state.EndTop?
    }

    /** Take one byte, whatever `rest` follows it. */
    method Step(b: byte, ghost rest: bytes) returns (ok: bool)
      requires Valid()
      modifies this
      ensures Valid()
      ensures ok ==> (Accepts(state, scopes, rest) <==> old(Accepts(state, scopes, [b] + rest)))
      ensures !ok ==> !old(Accepts(state, scopes, [b] + rest))
      ensures ok && IsSpace(b) ==> Idle(state, scopes)
    {
      hide Accepts, Fitting;
      while true
        invariant Valid()
        invariant Accepts(state, scopes, [b] + rest) <==> old(Accepts(state, scopes, [b] + rest))
        decreases Rank(state)
      {
        NextKeeps(state, scopes, b, rest);
        RankFalls(state, b, scopes);
        var move := Next(state, b, scopes);
        match move {
          case Fail => return false;
          case Again(state', scopes') =>
            state, scopes, endTop := state', scopes', state'.EndTop?;
          case Took(state', scopes') =>
            state, scopes, endTop := state', scopes', state'.EndTop?;
            return true;
        }
      }
    }
  }

  lemma RankFalls(state: State, b: byte, scopes: Stack<Scope>)
    requires Fitting(state, scopes)
    ensures var move := Next(state, b, scopes);
            && (move.Again? ==> Rank(move.state) < Rank(state))
            && (move.Took? && IsSpace(b) ==> Idle(move.state, move.scopes))
  {
  }

  /** The states in which a value may be over. */
  predicate MayEnd(state: State) {
    state.EndValue? || state.InInteger? || state.AfterZero? || state.InFraction? || state.InExponent?
  }

  lemma EndsSpace(scopes: Stack<Scope>)
    requires Fitting(EndValue, scopes)
    ensures Ends(scopes, [SPACE]) <==> Ends(scopes, [])
  {
    hide Closing;
    NextKeeps(EndValue, scopes, SPACE, []);
    assert [SPACE] + [] == [SPACE];
    WalkEnd([SPACE], LIMIT);
    WalkEnd([], LIMIT);
  }

  /** A space at the end changes nothing. */
  lemma SpaceAtEnd(state: State, scopes: Stack<Scope>)
    requires Fitting(state, scopes)
    ensures Accepts(state, scopes, [SPACE]) <==> Accepts(state, scopes, [])
  {
    hide Closing, Expecting;
    NextKeeps(state, scopes, SPACE, []);
    assert [SPACE] + [] == [SPACE];
    if MayEnd(state) {
      EndsSpace(scopes);
      NumbersEnd(state, scopes, []);
      NumbersEnd(state, scopes, [SPACE]);
    } else if !Idle(state, scopes) {
      Unfinished(state, scopes, []);
      Unfinished(state, scopes, [SPACE]);
    }
  }

  lemma NumbersEnd(state: State, scopes: Stack<Scope>, s: bytes)
    requires MayEnd(state) && (s == [] || s == [SPACE])
    ensures Accepts(state, scopes, s) <==> Ends(scopes, s)
  {
    hide Ends;
    assert DigitsLen(s) == 0 && TailLen(s) == Some(0) && ExponentLen(s) == Some(0);
    assert s[0..] == s;
  }

  lemma Unfinished(state: State, scopes: Stack<Scope>, s: bytes)
    requires !MayEnd(state) && !Idle(state, scopes) && Fitting(state, scopes) && (s == [] || s == [SPACE])
    ensures !Accepts(state, scopes, s)
  {
    hide Ends;
    assert DigitsLen(s) == 0 && UnitLen([BACKSLASH] + s) == 0;
  }

  /** Unless the value is over, there is more to read. */
  lemma IdleWaits(state: State, scopes: Stack<Scope>)
    requires Idle(state, scopes) && !state.EndTop? && Fitting(state, scopes)
    ensures !Accepts(state, scopes, [])
  {
  }

  /** The scanner accepts exactly the documents of the grammar, with containers nested no deeper than the limit. */
  method CheckDocument(s: bytes) returns (ok: bool)
    ensures ok <==> CheckValid(s)
  {
    hide Accepts, Fitting, Idle, CheckValid;
    var scanner := new Scanner();
    var i := 0;
    StartAccepts(s);
    assert s[0..] == s;
    while i < |s|
      invariant 0 <= i <= |s| && scanner.Valid()
      invariant Accepts(scanner.state, scanner.scopes, s[i..]) <==> CheckValid(s)
    {
      assert s[i..] == [s[i]] + s[i + 1..];
      ok := scanner.Step(s[i], s[i + 1..]);
      if !ok { return; }
      i := i + 1;
    }
    assert s[i..] == [];
    if scanner.endTop {
      TopAccepts(scanner.scopes);
      return true;
    }
    SpaceAtEnd(scanner.state, scanner.scopes);
    assert [SPACE] + [] == [SPACE];
    ok := scanner.Step(SPACE, []);
    if !ok { return; }
    if !scanner.endTop {
      IdleWaits(scanner.state, scanner.scopes);
      return false;
    }
    TopAccepts(scanner.scopes);
  }

  lemma TopAccepts(scopes: Stack<Scope>)
    ensures Accepts(EndTop, scopes, [])
  {
  }

  lemma StartAccepts(s: bytes)
    ensures Accepts(BeginValue, Empty, s) <==> CheckValid(s)
  {
    hide BodyRest, Skip, ReadDocument, DepthNode;
    ValidatedExact(s, LIMIT);
    var t := BodyRest(Skip(s), LIMIT, 0);
    if t.Some? {
      WalkEnd(t.value, LIMIT);
    }
  }
}
