// Text utilities of the dynamic string library: splitting, quoting, and splitting quoted lines.

module Sds {
  import opened Bytes

  // ---------------------------------------------------------------- splitting at a separator

  function SplitAll(s: seq<byte>, sep: byte): (parts: seq<seq<byte>>)
    ensures parts != []
    decreases |s|
  {
    var k := IndexOf(s, sep, 0);
    if k == |s| then [s] else [s[..k]] + SplitAll(s[k + 1..], sep)
  }

  /** The pieces between separators; the empty string has none. */
  function Split(s: seq<byte>, sep: byte): seq<seq<byte>> {
    if s == [] then [] else SplitAll(s, sep)
  }

  method SplitLen(s: seq<byte>, sep: byte) returns (tokens: seq<seq<byte>>)
    ensures tokens == Split(s, sep)
  {
    hide SplitAll;
    tokens := [];
    if |s| == 0 {
      return;
    }
    var start := 0;
    assert s[0..] == s;
    for j := 0 to |s|
      invariant start <= j && sep !in s[start..j]
      invariant tokens + SplitAll(s[start..], sep) == SplitAll(s, sep)
    {
      if s[j] == sep {
        SplitsHere(s, sep, start, j);
        ConcatTwice(tokens, [s[start..j]], SplitAll(s[j + 1..], sep));
        tokens := tokens + [s[start..j]];
        start := j + 1;
      }
    }
    NoSeparator(s[start..], sep);
    tokens := tokens + [s[start..]];
  }

  lemma SplitsHere(s: seq<byte>, sep: byte, start: nat, j: nat)
    requires start <= j < |s| && s[j] == sep && sep !in s[start..j]
    ensures SplitAll(s[start..], sep) == [s[start..j]] + SplitAll(s[j + 1..], sep)
  {
    var t := s[start..];
    assert t[0..j - start] == s[start..j];
    IndexOfIs(t, sep, 0, j - start);
    assert t[j - start + 1..] == s[j + 1..];
  }

  lemma NoSeparator(s: seq<byte>, sep: byte)
    requires sep !in s
    ensures SplitAll(s, sep) == [s]
  {
    IndexOfNone(s, sep, 0);
  }

  function Join(parts: seq<seq<byte>>, sep: byte): seq<byte> {
    if parts == [] then []
    else if |parts| == 1 then parts[0]
    else parts[0] + [sep] + Join(parts[1..], sep)
  }

  /** Splitting undoes joining when no part holds the separator. */
  lemma {:induction false} SplitJoin(parts: seq<seq<byte>>, sep: byte)
    requires parts != [] && forall i :: 0 <= i < |parts| ==> sep !in parts[i]
    ensures SplitAll(Join(parts, sep), sep) == parts
  {
    if |parts| == 1 {
      NoSeparator(parts[0], sep);
    } else {
      SplitJoin(parts[1..], sep);
      var s := Join(parts, sep);
      assert s[0..|parts[0]|] == parts[0];
      IndexOfIs(s, sep, 0, |parts[0]|);
      assert s[|parts[0]| + 1..] == Join(parts[1..], sep);
    }
  }

  /** Joining undoes splitting, and no piece holds the separator. */
  lemma {:induction false} JoinSplit(s: seq<byte>, sep: byte)
    ensures Join(SplitAll(s, sep), sep) == s
    ensures forall i :: 0 <= i < |SplitAll(s, sep)| ==> sep !in SplitAll(s, sep)[i]
    decreases |s|
  {
    var k := IndexOf(s, sep, 0);
    if k < |s| {
      var rest := SplitAll(s[k + 1..], sep);
      JoinSplit(s[k + 1..], sep);
      assert SplitAll(s, sep)[1..] == rest;
      assert s == s[..k] + [sep] + s[k + 1..];
    }
  }

  lemma JoinTwo(a: seq<byte>, b: seq<byte>, sep: byte)
    ensures Join([a, b], sep) == a + [sep] + b
  {
    assert [a, b][1..] == [b];
  }

  // ---------------------------------------------------------------- quoting

  const QUOTE: byte := 34
  const APOSTROPHE: byte := 39
  const BACKSLASH: byte := 92

  predicate IsPrint(b: byte) { 32 <= b <= 126 }

  predicate IsSpace(b: byte) { b == SPACE || 9 <= b <= 13 }

  function HexDigit(n: nat): byte
    requires n < 16
  {
    if n < 10 then ZERO + n else 87 + n
  }

  predicate IsHexDigit(c: byte) { IsDigit(c) || 97 <= c <= 102 || 65 <= c <= 70 }

  function HexValue(c: byte): (v: nat)
    ensures v < 16
  {
    if IsDigit(c) then c - ZERO
    else if 97 <= c <= 102 then c - 87
    else if 65 <= c <= 70 then c - 55
    else 0
  }

  /** The byte two hexadecimal digits stand for. */
  function HexByte(high: byte, low: byte): byte {
    HexValue(high) * 16 + HexValue(low)
  }

  /** A byte as it appears between quotes. */
  function ReprByte(b: byte): seq<byte> {
    if b == BACKSLASH || b == QUOTE then [BACKSLASH, b]
    else if b == 10 then [BACKSLASH, 110]
    else if b == 13 then [BACKSLASH, 114]
    else if b == 9 then [BACKSLASH, 116]
    else if b == 7 then [BACKSLASH, 97]
    else if b == 8 then [BACKSLASH, 98]
    else if IsPrint(b) then [b]
    else [BACKSLASH, 120, HexDigit(b / 16), HexDigit(b % 16)]
  }

  function ReprBody(s: seq<byte>): seq<byte> {
    if s == [] then [] else ReprByte(s[0]) + ReprBody(s[1..])
  }

  function Repr(s: seq<byte>): seq<byte> { [QUOTE] + ReprBody(s) + [QUOTE] }

  lemma {:induction false} ReprBodyAppend(a: seq<byte>, b: byte)
    ensures ReprBody(a + [b]) == ReprBody(a) + ReprByte(b)
  {
    hide ReprByte;
    if a == [] {
      assert [b][1..] == [];
    } else {
      ReprBodyAppend(a[1..], b);
      assert (a + [b])[1..] == a[1..] + [b] && (a + [b])[0] == a[0];
      ConcatTwice(ReprByte(a[0]), ReprBody(a[1..]), ReprByte(b));
    }
  }

  method CatReprByte(s: seq<byte>, b: byte) returns (r: seq<byte>)
    ensures r == s + ReprByte(b)
  {
    if b == BACKSLASH || b == QUOTE {
      r := s + [BACKSLASH, b];
    } else if b == 10 {
      r := s + [BACKSLASH, 110];
    } else if b == 13 {
      r := s + [BACKSLASH, 114];
    } else if b == 9 {
      r := s + [BACKSLASH, 116];
    } else if b == 7 {
      r := s + [BACKSLASH, 97];
    } else if b == 8 {
      r := s + [BACKSLASH, 98];
    } else if IsPrint(b) {
      r := s + [b];
    } else {
      r := s + [BACKSLASH, 120, HexDigit(b / 16), HexDigit(b % 16)];
    }
  }

  /** Appends the quoted form of `p` to `s`. */
  method CatRepr(s: seq<byte>, p: seq<byte>) returns (r: seq<byte>)
    ensures r == s + Repr(p)
  {
    hide ReprByte;
    r := s + [QUOTE];
    for i := 0 to |p|
      invariant r == s + [QUOTE] + ReprBody(p[..i])
    {
      hide ReprBody;
      ReprBodyAppend(p[..i], p[i]);
      assert p[..i] + [p[i]] == p[..i + 1];
      ConcatTwice(s + [QUOTE], ReprBody(p[..i]), ReprByte(p[i]));
      r := CatReprByte(r, p[i]);
    }
    assert p[..|p|] == p;
    r := r + [QUOTE];
    assert s + [QUOTE] + ReprBody(p) + [QUOTE] == s + Repr(p);
  }

  // ---------------------------------------------------------------- splitting a quoted line

  datatype Mode = Plain | InQuotes | InApostrophes

  /** A C string ends in a NUL. */
  function Peek(s: seq<byte>, i: nat): byte { if i < |s| then s[i] else 0 }

  function Unescape(c: byte): byte {
    if c == 110 then 10 else if c == 114 then 13 else if c == 116 then 9
    else if c == 98 then 8 else if c == 97 then 7 else c
  }

  datatype Piece = Piece(token: seq<byte>, rest: seq<byte>)

  /** Reads one argument; `cur` is what has been read of it. None: unbalanced quotes, or a closing
      quote with something stuck to it. */
  function Token(s: seq<byte>, mode: Mode, cur: seq<byte>): (r: Option<Piece>)
    ensures r.Some? ==> |r.value.rest| <= |s|
    ensures r.Some? && s != [] && Peek(s, 0) != 0 ==> |r.value.rest| < |s|
    decreases |s|
  {
    var c, d := Peek(s, 0), Peek(s, 1);
    match mode
    case InQuotes =>
      if c == BACKSLASH && d == 120 && IsHexDigit(Peek(s, 2)) && IsHexDigit(Peek(s, 3))
      then Token(s[4..], mode, cur + [HexByte(s[2], s[3])])
      else if c == BACKSLASH && d != 0 then Token(s[2..], mode, cur + [Unescape(d)])
      else if c == QUOTE then if d != 0 && !IsSpace(d) then None else Some(Piece(cur, s[1..]))
      else if c == 0 then None
      else Token(s[1..], mode, cur + [c])
    case InApostrophes =>
      if c == BACKSLASH && d == APOSTROPHE then Token(s[2..], mode, cur + [APOSTROPHE])
      else if c == APOSTROPHE then if d != 0 && !IsSpace(d) then None else Some(Piece(cur, s[1..]))
      else if c == 0 then None
      else Token(s[1..], mode, cur + [c])
    case Plain =>
      if c == 0 then Some(Piece(cur, s))
      else if c == SPACE || c == 10 || c == 13 || c == 9 then Some(Piece(cur, s[1..]))
      else if c == QUOTE then Token(s[1..], InQuotes, cur)
      else if c == APOSTROPHE then Token(s[1..], InApostrophes, cur)
      else Token(s[1..], mode, cur + [c])
  }

  // One step of each mode.
  lemma QuotedStep(s: seq<byte>, cur: seq<byte>)
    ensures var c, d := Peek(s, 0), Peek(s, 1);
            Token(s, InQuotes, cur) ==
            if c == BACKSLASH && d == 120 && IsHexDigit(Peek(s, 2)) && IsHexDigit(Peek(s, 3))
            then Token(s[4..], InQuotes, cur + [HexByte(s[2], s[3])])
            else if c == BACKSLASH && d != 0 then Token(s[2..], InQuotes, cur + [Unescape(d)])
            else if c == QUOTE then if d != 0 && !IsSpace(d) then None else Some(Piece(cur, s[1..]))
            else if c == 0 then None
            else Token(s[1..], InQuotes, cur + [c])
  {
  }

  lemma ApostropheStep(s: seq<byte>, cur: seq<byte>)
    ensures var c, d := Peek(s, 0), Peek(s, 1);
            Token(s, InApostrophes, cur) ==
            if c == BACKSLASH && d == APOSTROPHE then Token(s[2..], InApostrophes, cur + [APOSTROPHE])
            else if c == APOSTROPHE then if d != 0 && !IsSpace(d) then None else Some(Piece(cur, s[1..]))
            else if c == 0 then None
            else Token(s[1..], InApostrophes, cur + [c])
  {
  }

  lemma PlainStep(s: seq<byte>, cur: seq<byte>)
    ensures var c := Peek(s, 0);
            Token(s, Plain, cur) ==
            if c == 0 then Some(Piece(cur, s))
            else if c == SPACE || c == 10 || c == 13 || c == 9 then Some(Piece(cur, s[1..]))
            else if c == QUOTE then Token(s[1..], InQuotes, cur)
            else if c == APOSTROPHE then Token(s[1..], InApostrophes, cur)
            else Token(s[1..], Plain, cur + [c])
  {
  }

  function SkipBlanks(s: seq<byte>): (r: seq<byte>)
    ensures |r| <= |s|
  {
    if s != [] && s[0] != 0 && IsSpace(s[0]) then SkipBlanks(s[1..]) else s
  }

  function Args(s: seq<byte>): Option<seq<seq<byte>>>
    decreases |s|
  {
    var t := SkipBlanks(s);
    if Peek(t, 0) == 0 then Some([]) else
    match Token(t, Plain, [])
    case None => None
    case Some(piece) =>
      Prepend([piece.token], Args(piece.rest))
  }

  function Prepend(tokens: seq<seq<byte>>, more: Option<seq<seq<byte>>>): Option<seq<seq<byte>>> {
    match more
    case None => None
    case Some(ts) => Some(tokens + ts)
  }

  lemma PrependNothing(more: Option<seq<seq<byte>>>)
    ensures Prepend([], more) == more
  {
    if more.Some? {
      assert [] + more.value == more.value;
    }
  }

  lemma PrependTwice(a: seq<seq<byte>>, b: seq<seq<byte>>, more: Option<seq<seq<byte>>>)
    ensures Prepend(a, Prepend(b, more)) == Prepend(a + b, more)
  {
    if more.Some? {
      assert a + (b + more.value) == a + b + more.value;
    }
  }

  lemma Slides(line: seq<byte>, p: nat, k: nat)
    requires p + k <= |line|
    ensures line[p..][k..] == line[p + k..]
  {
  }

  // A turn of the loop in one mode: it fails, ends the token, or goes on behind what it took.
  ghost predicate Turn(line: seq<byte>, p: nat, mode: Mode, cur: seq<byte>,
                       ok: bool, done: bool, mode': Mode, cur': seq<byte>, next: nat)
    requires p <= |line|
  {
    var t := Token(line[p..], mode, cur);
    && p <= next <= |line|
    && (!ok ==> t == None)
    && (ok && done ==> t == Some(Piece(cur', line[next..])))
    && (ok && !done ==> next > p && t == Token(line[next..], mode', cur'))
  }

  method QuotedTurn(line: seq<byte>, from: nat, current: seq<byte>)
    returns (ok: bool, done: bool, more: seq<byte>, p: nat)
    requires from <= |line|
    ensures Turn(line, from, InQuotes, current, ok, done, InQuotes, more, p)
  {
    hide Token, HexByte, Unescape;
    p, more, ok, done := from, current, true, false;
    var c, d := Peek(line, p), Peek(line, p + 1);
    assert forall i :: 0 <= i < 4 ==> Peek(line[p..], i) == Peek(line, p + i);
    QuotedStep(line[p..], current);
    if c == BACKSLASH && d == 120 && IsHexDigit(Peek(line, p + 2)) && IsHexDigit(Peek(line, p + 3)) {
      more := more + [HexByte(line[p + 2], line[p + 3])];
      p := p + 3;
    } else if c == BACKSLASH && d != 0 {
      p := p + 1;
      more := more + [Unescape(d)];
    } else if c == QUOTE {
      if d != 0 && !IsSpace(d) {
        return false, done, more, p;
      }
      done := true;
    } else if c == 0 {
      return false, done, more, p;
    } else {
      more := more + [c];
    }
    p := p + 1;
    Slides(line, from, p - from);
  }

  method ApostropheTurn(line: seq<byte>, from: nat, current: seq<byte>)
    returns (ok: bool, done: bool, more: seq<byte>, p: nat)
    requires from <= |line|
    ensures Turn(line, from, InApostrophes, current, ok, done, InApostrophes, more, p)
  {
    hide Token;
    p, more, ok, done := from, current, true, false;
    var c, d := Peek(line, p), Peek(line, p + 1);
    assert forall i :: 0 <= i < 2 ==> Peek(line[p..], i) == Peek(line, p + i);
    ApostropheStep(line[p..], current);
    if c == BACKSLASH && d == APOSTROPHE {
      p := p + 1;
      more := more + [APOSTROPHE];
    } else if c == APOSTROPHE {
      if d != 0 && !IsSpace(d) {
        return false, done, more, p;
      }
      done := true;
    } else if c == 0 {
      return false, done, more, p;
    } else {
      more := more + [c];
    }
    p := p + 1;
    Slides(line, from, p - from);
  }

  method PlainTurn(line: seq<byte>, from: nat, current: seq<byte>)
    returns (done: bool, mode: Mode, more: seq<byte>, p: nat)
    requires from <= |line|
    ensures Turn(line, from, Plain, current, true, done, mode, more, p)
  {
    hide Token;
    p, more, mode, done := from, current, Plain, false;
    var c := Peek(line, p);
    assert Peek(line[p..], 0) == c;
    PlainStep(line[p..], current);
    if c == SPACE || c == 10 || c == 13 || c == 9 || c == 0 {
      done := true;
    } else if c == QUOTE {
      mode := InQuotes;
    } else if c == APOSTROPHE {
      mode := InApostrophes;
    } else {
      more := more + [c];
    }
    if c != 0 {
      p := p + 1;
    }
    Slides(line, from, p - from);
  }

  /** Reads one argument, from where no blank stands. */
  method ReadToken(line: seq<byte>, from: nat) returns (ok: bool, current: seq<byte>, p: nat)
    requires from <= |line|
    ensures match Token(line[from..], Plain, [])
            case None => !ok
            case Some(piece) => ok && current == piece.token && p <= |line| && line[p..] == piece.rest
  {
    hide Token;
    p, current, ok := from, [], true;
    var mode, done := Plain, false;
    while !done
      invariant p <= |line| && ok
      invariant !done ==> Token(line[from..], Plain, []) == Token(line[p..], mode, current)
      invariant done ==> Token(line[from..], Plain, []) == Some(Piece(current, line[p..]))
      decreases !done, |line| - p
    {
      match mode {
        case InQuotes => ok, done, current, p := QuotedTurn(line, p, current);
        case InApostrophes => ok, done, current, p := ApostropheTurn(line, p, current);
        case Plain => done, mode, current, p := PlainTurn(line, p, current);
      }
      if !ok {
        return;
      }
    }
  }

  lemma NoMoreArgs(tokens: seq<seq<byte>>, s: seq<byte>)
    requires Peek(SkipBlanks(s), 0) == 0
    ensures Prepend(tokens, Args(s)) == Some(tokens)
  {
    assert tokens + [] == tokens;
  }

  lemma OneMoreArg(tokens: seq<seq<byte>>, s: seq<byte>)
    requires Peek(SkipBlanks(s), 0) != 0
    ensures Prepend(tokens, Args(s)) ==
            match Token(SkipBlanks(s), Plain, [])
            case None => None
            case Some(piece) => Prepend(tokens + [piece.token], Args(piece.rest))
  {
    hide Token, SkipBlanks;
    match Token(SkipBlanks(s), Plain, [])
    case None =>
    case Some(piece) => PrependTwice(tokens, [piece.token], Args(piece.rest));
  }

  method SplitArgs(line: seq<byte>) returns (vector: Option<seq<seq<byte>>>)
    ensures vector == Args(line)
  {
    hide Args, Token, Prepend;
    var p, tokens := 0, [];
    assert line[0..] == line;
    PrependNothing(Args(line));
    while true
      invariant 0 <= p <= |line|
      invariant Args(line) == Prepend(tokens, Args(line[p..]))
      decreases |line| - p
    {
      ghost var s := line[p..];
      while p < |line| && line[p] != 0 && IsSpace(line[p])
        invariant p <= |line| && |line[p..]| <= |s| && SkipBlanks(line[p..]) == SkipBlanks(s)
        decreases |line| - p
      {
        p := p + 1;
        assert line[p - 1..][1..] == line[p..];
      }
      assert SkipBlanks(s) == line[p..];
      assert Peek(line, p) == Peek(line[p..], 0);
      if Peek(line, p) == 0 {
        NoMoreArgs(tokens, s);
        return Some(tokens);
      }
      OneMoreArg(tokens, s);
      var ok, current, next := ReadToken(line, p);
      if !ok {
        return None;
      }
      tokens := tokens + [current];
      p := next;
    }
  }

  // ---------------------------------------------------------------- undoing each other

  lemma HexRoundTrip(b: byte)
    ensures IsHexDigit(HexDigit(b / 16)) && IsHexDigit(HexDigit(b % 16))
    ensures HexByte(HexDigit(b / 16), HexDigit(b % 16)) == b
  {
  }

  /** Every one of the 256 bytes is read back from its quoted form. */
  lemma ReadByte(b: byte, rest: seq<byte>, cur: seq<byte>)
    ensures Token(ReprByte(b) + rest, InQuotes, cur) == Token(rest, InQuotes, cur + [b])
  {
    hide Token;
    HexRoundTrip(b);
    var s := ReprByte(b) + rest;
    QuotedStep(s, cur);
    assert s[|ReprByte(b)|..] == rest;
    assert forall i :: 0 <= i < |ReprByte(b)| ==> Peek(s, i) == ReprByte(b)[i];
  }

  lemma BodyHead(a: seq<byte>, rest: seq<byte>)
    ensures ReprBody(a) + [QUOTE] + rest
         == if a == [] then [QUOTE] + rest else ReprByte(a[0]) + (ReprBody(a[1..]) + [QUOTE] + rest)
  {
    hide ReprByte;
    if a == [] {
      assert [] + [QUOTE] + rest == [QUOTE] + rest;
    }
  }

  lemma {:induction false} ReadBody(a: seq<byte>, rest: seq<byte>, cur: seq<byte>)
    requires rest == [] || IsSpace(rest[0])
    ensures Token(ReprBody(a) + [QUOTE] + rest, InQuotes, cur) == Some(Piece(cur + a, rest))
  {
    hide Token, ReprByte, ReprBody, IsSpace;
    BodyHead(a, rest);
    if a == [] {
      QuotedStep([QUOTE] + rest, cur);
      assert ([QUOTE] + rest)[1..] == rest;
      assert cur + a == cur;
    } else {
      var tail := ReprBody(a[1..]) + [QUOTE] + rest;
      ReadByte(a[0], tail, cur);
      ReadBody(a[1..], rest, cur + [a[0]]);
      assert cur + [a[0]] + a[1..] == cur + a;
    }
  }

  lemma ReadQuoted(a: seq<byte>, rest: seq<byte>)
    requires rest == [] || IsSpace(rest[0])
    ensures Token(Repr(a) + rest, Plain, []) == Some(Piece(a, rest))
  {
    hide Token, ReprBody;
    ReadBody(a, rest, []);
    var s := Repr(a) + rest;
    assert s[0] == QUOTE && s[1..] == ReprBody(a) + [QUOTE] + rest;
    PlainStep(s, []);
    assert [] + a == a;
  }

  // ---------------------------------------------------------------- any way of writing an argument

  // What stands between arguments, and what ends an argument that is not quoted.
  const BLANKS: set<byte> := {9, 10, 11, 12, 13, 32}
  const ENDS: set<byte> := {9, 10, 13, 32}

  ghost predicate Blank(s: seq<byte>) { forall i :: 0 <= i < |s| ==> s[i] in BLANKS }

  // The three ways of writing an argument, as it is, between double quotes, between apostrophes, and the
  // blanks after it.
  datatype Form = Bare | Double | Single
  datatype Written = Written(form: Form, arg: seq<byte>, gap: seq<byte>)

  predicate Ordinary(b: byte) { b !in ENDS && b !in {0, 34, 39} }

  /** What can be written in which form: bare words are not empty and hold no NUL or quote, none of the bytes
      that end them, and no blank in front; between apostrophes there is no NUL, and no backslash at the end. */
  ghost predicate Writable(w: Written) {
    Blank(w.gap) &&
    match w.form
    case Bare =>
      && w.arg != [] && w.arg[0] !in BLANKS && (w.gap != [] ==> w.gap[0] in ENDS)
      && forall i :: 0 <= i < |w.arg| ==> Ordinary(w.arg[i])
    case Double => true
    case Single => 0 !in w.arg && (w.arg != [] ==> w.arg[|w.arg| - 1] != BACKSLASH)
  }

  // Arguments in any forms with blanks between them.
  ghost predicate Spaced(ws: seq<Written>) {
    && (forall i :: 0 <= i < |ws| ==> Writable(ws[i]))
    && (forall i :: 0 <= i < |ws| - 1 ==> ws[i].gap != [])
  }

  // Between apostrophes only an apostrophe is escaped.
  function Escaped(a: seq<byte>): seq<byte> {
    if a == [] then [] else (if a[0] == APOSTROPHE then [BACKSLASH, APOSTROPHE] else [a[0]]) + Escaped(a[1..])
  }

  function TextOf(w: Written): seq<byte> {
    match w.form
    case Bare => w.arg
    case Double => Repr(w.arg)
    case Single => [APOSTROPHE] + Escaped(w.arg) + [APOSTROPHE]
  }

  function Line(ws: seq<Written>): seq<byte> {
    if ws == [] then [] else TextOf(ws[0]) + (ws[0].gap + Line(ws[1..]))
  }

  function ArgsOf(ws: seq<Written>): seq<seq<byte>> {
    if ws == [] then [] else [ws[0].arg] + ArgsOf(ws[1..])
  }

  lemma {:induction false} BlanksSkipped(gap: seq<byte>, s: seq<byte>)
    requires Blank(gap)
    ensures Args(gap + s) == Args(s)
  {
    if gap == [] {
      assert gap + s == s;
    } else {
      hide Token;
      assert (gap + s)[0] in BLANKS && (gap + s)[1..] == gap[1..] + s;
      BlanksSkipped(gap[1..], s);
    }
  }

  lemma {:induction false} ReadBare(a: seq<byte>, rest: seq<byte>, cur: seq<byte>)
    requires forall i :: 0 <= i < |a| ==> Ordinary(a[i])
    requires rest == [] || rest[0] in ENDS
    ensures Token(a + rest, Plain, cur) == Some(Piece(cur + a, if rest == [] then [] else rest[1..]))
  {
    hide Token;
    PlainStep(a + rest, cur);
    if a == [] {
      assert a + rest == rest && cur + a == cur;
    } else {
      assert Ordinary(a[0]) && (a + rest)[1..] == a[1..] + rest;
      ReadBare(a[1..], rest, cur + [a[0]]);
      assert cur + [a[0]] + a[1..] == cur + a;
    }
  }

  // An escaped text never begins with an apostrophe, except at its end.
  lemma EscapedFirst(a: seq<byte>, rest: seq<byte>)
    ensures var t := Escaped(a) + [APOSTROPHE] + rest;
            t[0] == APOSTROPHE <==> a == []
  {
  }

  lemma EscapedStep(a: seq<byte>, rest: seq<byte>, cur: seq<byte>)
    requires a != [] && a[0] != 0 && (|a| > 1 || a[0] != BACKSLASH)
    ensures Token(Escaped(a) + [APOSTROPHE] + rest, InApostrophes, cur)
         == Token(Escaped(a[1..]) + [APOSTROPHE] + rest, InApostrophes, cur + [a[0]])
  {
    hide Token;
    var s, tail := Escaped(a) + [APOSTROPHE] + rest, Escaped(a[1..]) + [APOSTROPHE] + rest;
    ApostropheStep(s, cur);
    assert s == (if a[0] == APOSTROPHE then [BACKSLASH, APOSTROPHE] else [a[0]]) + tail;
    assert s[if a[0] == APOSTROPHE then 2 else 1..] == tail;
    EscapedFirst(a[1..], rest);
  }

  lemma {:induction false} ReadEscaped(a: seq<byte>, rest: seq<byte>, cur: seq<byte>)
    requires 0 !in a && (a != [] ==> a[|a| - 1] != BACKSLASH)
    requires rest == [] || rest[0] in BLANKS
    ensures Token(Escaped(a) + [APOSTROPHE] + rest, InApostrophes, cur) == Some(Piece(cur + a, rest))
  {
    hide Token;
    if a == [] {
      var s := [APOSTROPHE] + rest;
      assert Escaped(a) + [APOSTROPHE] + rest == s && s[1..] == rest && cur + a == cur;
      ApostropheStep(s, cur);
    } else {
      hide Escaped;
      assert a[0] in a;
      EscapedStep(a, rest, cur);
      ReadEscaped(a[1..], rest, cur + [a[0]]);
      assert cur + [a[0]] + a[1..] == cur + a;
    }
  }

  /** Each way of writing an argument is read as the argument. */
  lemma ReadWritten(w: Written, rest: seq<byte>)
    requires Writable(w) && (w.gap == [] ==> rest == [])
    ensures var r := Token(TextOf(w) + (w.gap + rest), Plain, []);
            r.Some? && r.value.token == w.arg && Args(r.value.rest) == Args(rest)
  {
    hide Token, ReprBody, Escaped, Args;
    var after := w.gap + rest;
    assert [] + w.arg == w.arg;
    BlanksSkipped(w.gap, rest);
    match w.form
    case Bare =>
      ReadBare(w.arg, after, []);
      if after != [] {
        assert after[1..] == w.gap[1..] + rest;
        BlanksSkipped(w.gap[1..], rest);
      }
    case Double => ReadQuoted(w.arg, after);
    case Single =>
      var s := TextOf(w) + after;
      assert s[0] == APOSTROPHE && s[1..] == Escaped(w.arg) + [APOSTROPHE] + after;
      PlainStep(s, []);
      ReadEscaped(w.arg, after, []);
  }

  // A written argument begins with something to read.
  lemma WrittenFirst(w: Written, rest: seq<byte>)
    requires Writable(w)
    ensures var s := TextOf(w) + rest;
            s != [] && SkipBlanks(s) == s && Peek(s, 0) != 0
  {
    hide ReprBody, Escaped;
    assert w.form.Bare? ==> Ordinary(w.arg[0]);
    assert TextOf(w)[0] !in BLANKS;
  }

  /** Arguments written in any mixture of forms, with any blanks before, between and after them, are split
      into themselves. */
  lemma {:induction false} SplitArgsWritten(lead: seq<byte>, ws: seq<Written>)
    requires Blank(lead) && Spaced(ws)
    ensures Args(lead + Line(ws)) == Some(ArgsOf(ws))
    decreases |ws|
  {
    BlanksSkipped(lead, Line(ws));
    if ws != [] {
      hide TextOf, Token, Writable, SkipBlanks;
      var rest := Line(ws[1..]);
      WrittenFirst(ws[0], ws[0].gap + rest);
      ReadWritten(ws[0], rest);
      SplitArgsWritten([], ws[1..]);
      assert [] + rest == rest;
    }
  }

  function Quoted(args: seq<seq<byte>>): (r: seq<seq<byte>>)
    ensures |r| == |args| && forall i :: 0 <= i < |r| ==> r[i] == Repr(args[i])
  {
    seq(|args|, i requires 0 <= i < |args| => Repr(args[i]))
  }

  function AllDouble(args: seq<seq<byte>>): (ws: seq<Written>)
    ensures |ws| == |args|
    ensures forall i :: 0 <= i < |ws| ==> ws[i] == Written(Double, args[i], if i < |ws| - 1 then [SPACE] else [])
  {
    seq(|args|, i requires 0 <= i < |args| => Written(Double, args[i], if i < |args| - 1 then [SPACE] else []))
  }

  lemma {:induction false} AllDoubleIs(args: seq<seq<byte>>)
    ensures Line(AllDouble(args)) == Join(Quoted(args), SPACE) && ArgsOf(AllDouble(args)) == args
  {
    hide Repr;
    if args != [] {
      AllDoubleIs(args[1..]);
      assert AllDouble(args)[1..] == AllDouble(args[1..]);
      assert Quoted(args)[1..] == Quoted(args[1..]);
    }
  }

  /** Quoting each argument, joining with single spaces and splitting gives the arguments back,
      whatever bytes they hold. */
  lemma SplitArgsQuoted(args: seq<seq<byte>>)
    ensures Args(Join(Quoted(args), SPACE)) == Some(args)
  {
    hide Line, Join, Args;
    AllDoubleIs(args);
    assert Spaced(AllDouble(args));
    SplitArgsWritten([], AllDouble(args));
    assert [] + Line(AllDouble(args)) == Line(AllDouble(args));
  }

  // ---------------------------------------------------------------- escapes

  // The hexadecimal digits of a value, in either case.
  predicate Stands(c: byte, n: int) {
    (n < 10 && c == 48 + n) || (n >= 10 && (c == 87 + n || c == 55 + n))
  }

  predicate StandsForAny(c: byte) { exists n :: 0 <= n < 16 && Stands(c, n) }

  /** Between double quotes two hexadecimal digits after a backslash and an x are the byte they stand for;
      with anything else there the x is an x. */
  lemma HexEscape(x: byte, y: byte, rest: seq<byte>, cur: seq<byte>)
    ensures forall m, n :: 0 <= m < 16 && 0 <= n < 16 && Stands(x, m) && Stands(y, n) ==>
              Token([92, 120, x, y] + rest, InQuotes, cur) == Token(rest, InQuotes, cur + [16 * m + n])
    ensures !StandsForAny(x) || !StandsForAny(y) ==>
              Token([92, 120, x, y] + rest, InQuotes, cur) == Token([x, y] + rest, InQuotes, cur + [120])
  {
    hide Token;
    var s := [92, 120, x, y] + rest;
    QuotedStep(s, cur);
    assert s[4..] == rest && s[2..] == [x, y] + rest;
    DigitStands(x);
    DigitStands(y);
  }

  lemma DigitStands(c: byte)
    ensures forall n :: 0 <= n < 16 && Stands(c, n) ==> IsHexDigit(c) && HexValue(c) == n
    ensures IsHexDigit(c) ==> StandsForAny(c)
  {
    if IsHexDigit(c) {
      assert Stands(c, HexValue(c));
    }
  }

  /** Any byte after a backslash that is none of the letters b, a, n, r, t and x stands for itself. */
  lemma OtherEscape(c: byte, rest: seq<byte>, cur: seq<byte>)
    requires c !in {0, 97, 98, 110, 114, 116, 120}
    ensures Token([92, c] + rest, InQuotes, cur) == Token(rest, InQuotes, cur + [c])
  {
    hide Token;
    QuotedStep([92, c] + rest, cur);
    assert ([92, c] + rest)[2..] == rest;
  }

  /** A quoted text is printable whatever its bytes, and printable bytes are in it as they are. */
  lemma {:induction false} ReprPrintable(s: seq<byte>)
    ensures forall i :: 0 <= i < |ReprBody(s)| ==> 32 <= ReprBody(s)[i] <= 126
    ensures (forall i :: 0 <= i < |s| ==> 32 <= s[i] <= 126 && s[i] !in {34, 92}) ==> ReprBody(s) == s
  {
    if s != [] {
      ReprPrintable(s[1..]);
    }
  }

  // ---------------------------------------------------------------- unbalanced quotes

  function QuoteOf(mode: Mode): byte
    requires mode != Plain
  {
    if mode == InQuotes then QUOTE else APOSTROPHE
  }

  lemma {:induction false} TakenAsIs(mode: Mode, a: seq<byte>, rest: seq<byte>, cur: seq<byte>)
    requires mode != Plain && forall i :: 0 <= i < |a| ==> a[i] !in [0, BACKSLASH, QuoteOf(mode)]
    ensures Token(a + rest, mode, cur) == Token(rest, mode, cur + a)
  {
    hide Token;
    if a == [] {
      assert a + rest == rest && cur + a == cur;
    } else {
      QuotedStep(a + rest, cur);
      ApostropheStep(a + rest, cur);
      assert (a + rest)[1..] == a[1..] + rest;
      TakenAsIs(mode, a[1..], rest, cur + [a[0]]);
      assert cur + [a[0]] + a[1..] == cur + a;
    }
  }

  /** A quote that is not closed refuses the line, and so does a closing quote with something stuck to it. */
  lemma Unbalanced(mode: Mode, a: seq<byte>, stuck: byte, rest: seq<byte>)
    requires mode != Plain && forall i :: 0 <= i < |a| ==> a[i] !in [0, BACKSLASH, QuoteOf(mode)]
    requires stuck != 0 && stuck !in BLANKS
    ensures Args([QuoteOf(mode)] + a) == None
    ensures Args([QuoteOf(mode)] + a + [QuoteOf(mode), stuck] + rest) == None
  {
    hide Token;
    var q := [QuoteOf(mode)];
    assert a + [] == a;
    TakenAsIs(mode, a, [], []);
    QuotedStep([], [] + a);
    ApostropheStep([], [] + a);
    PlainStep(q + a, []);
    assert (q + a)[1..] == a;
    var after := [QuoteOf(mode), stuck] + rest;
    TakenAsIs(mode, a, after, []);
    QuotedStep(after, [] + a);
    ApostropheStep(after, [] + a);
    var line := q + a + [QuoteOf(mode), stuck] + rest;
    assert line == q + (a + after) && line[1..] == a + after;
    PlainStep(line, []);
  }
}
