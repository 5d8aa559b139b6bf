/**
 * The two hand-written scanners of the API docs generator: one finds the
 * parenthesis that closes a call, the other splits the text in between at its
 * top-level commas. Both skip strings and comments by looking one character
 * ahead. The reference is a plain automaton that never looks ahead.
 */
module ApiDocsLexer {
  import opened Wrappers

  // ---------------------------------------------------- reference automaton

  /** `Slash` has seen a slash in code, `BlockStar` a star in a block comment. */
  datatype Mode = Code | Slash | Line | Block | BlockStar | Str(quote: char) | Esc(quote: char)

  predicate IsQuote(c: char) {
    c == '"' || c == '\'' || c == '`'
  }

  function NextMode(m: Mode, c: char): Mode {
    match m
    case Code => if c == '/' then Slash else if IsQuote(c) then Str(c) else Code
    case Slash => if c == '/' then Line else if c == '*' then Block else if IsQuote(c) then Str(c) else Code
    case Line => if c == '\n' then Code else Line
    case Block => if c == '*' then BlockStar else Block
    case BlockStar => if c == '/' then Code else if c == '*' then BlockStar else Block
    case Str(q) => if c == '\\' then Esc(q) else if c == q then Code else Str(q)
    case Esc(q) => Str(q)
  }

  /** The mode in which character `i` is read, scanning from `from`. */
  function ModeAt(text: string, from: nat, i: nat): Mode
    requires from <= i <= |text|
  {
    if i == from then Code else NextMode(ModeAt(text, from, i - 1), text[i - 1])
  }

  predicate IsPlain(m: Mode) {
    m.Code? || m.Slash?
  }

  /** Character `i` is code: outside every string and comment. */
  predicate Plain(text: string, from: nat, i: nat)
    requires from <= i <= |text|
  {
    IsPlain(ModeAt(text, from, i))
  }

  /** Brackets of one kind opened minus closed, in code, before `i`. */
  function Depth(text: string, from: nat, i: nat, open: char, close: char): int
    requires from <= i <= |text|
  {
    if i == from then 0
    else
      Depth(text, from, i - 1, open, close) +
      if !Plain(text, from, i - 1) then 0
      else if text[i - 1] == open then 1
      else if text[i - 1] == close then -1
      else 0
  }

  /** A closing parenthesis in code at `i` that brings the depth to zero. */
  predicate Closes(text: string, from: nat, i: nat)
    requires from <= i < |text|
  {
    text[i] == ')' && Plain(text, from, i) && Depth(text, from, i + 1, '(', ')') == 0
  }

  /** A comma in code, outside all brackets. */
  predicate TopComma(text: string, i: nat)
    requires i < |text|
  {
    && text[i] == ',' && Plain(text, 0, i)
    && Depth(text, 0, i, '(', ')') == 0 && Depth(text, 0, i, '[', ']') == 0 && Depth(text, 0, i, '{', '}') == 0
  }

  // ------------------------------------------------------- the shared scanner

  datatype Flags = Flags(lineComment: bool, blockComment: bool, quote: Option<char>, escaped: bool)

  const START := Flags(false, false, None, false)

  /** The flags of a scanner at the head of its loop stand for the automaton's mode. */
  ghost predicate Stands(f: Flags, text: string, from: nat, i: nat)
    requires from <= i <= |text|
  {
    match ModeAt(text, from, i)
    case Code => f == START
    case Slash => f == START && (i < |text| ==> text[i] != '/' && text[i] != '*')
    case Line => f == START.(lineComment := true)
    case Block => f == START.(blockComment := true)
    case BlockStar => f == START.(blockComment := true) && (i < |text| ==> text[i] != '/')
    case Str(q) => f == START.(quote := Some(q))
    case Esc(q) => f == START.(quote := Some(q), escaped := true)
  }

  predicate IsBracket(c: char) {
    c in "()[]{}"
  }

  /** One step of the skipping branches; `code` tells that the character is plain code. */
  method Skip(text: string, i: nat, f: Flags, ghost from: nat) returns (g: Flags, next: nat, code: bool)
    requires from <= i < |text| && Stands(f, text, from, i)
    ensures i < next <= |text| && Stands(g, text, from, next)
    ensures code ==> next == i + 1 && Plain(text, from, i)
    ensures !code ==> forall j {:trigger text[j]} :: i <= j < next && (IsBracket(text[j]) || text[j] == ',') ==> !Plain(text, from, j)
  {
    var c := text[i];
    var nxt := if i + 1 < |text| then Some(text[i + 1]) else None;
    g, next, code := f, i + 1, false;
    assert ModeAt(text, from, i + 1) == NextMode(ModeAt(text, from, i), c);
    assert i + 2 <= |text| ==> ModeAt(text, from, i + 2) == NextMode(ModeAt(text, from, i + 1), text[i + 1]);
    if f.lineComment {
      if c == '\n' {
        g := g.(lineComment := false);
      }
    } else if f.blockComment {
      if c == '*' && nxt == Some('/') {
        g := g.(blockComment := false);
        next := i + 2;
      }
    } else if f.quote.Some? {
      if f.escaped {
        g := g.(escaped := false);
      } else if c == '\\' {
        g := g.(escaped := true);
      } else if c == f.quote.value {
        g := g.(quote := None);
      }
    } else if c == '/' && nxt == Some('/') {
      g := g.(lineComment := true);
      next := i + 2;
    } else if c == '/' && nxt == Some('*') {
      g := g.(blockComment := true);
      next := i + 2;
    } else if IsQuote(c) {
      g := g.(quote := Some(c));
    } else {
      code := true;
    }
  }

  lemma {:induction false} SkippedKeepsDepth(text: string, from: nat, i: nat, next: nat, open: char, close: char)
    requires from <= i <= next <= |text| && IsBracket(open) && IsBracket(close)
    requires forall j {:trigger text[j]} :: i <= j < next && IsBracket(text[j]) ==> !Plain(text, from, j)
    ensures Depth(text, from, next, open, close) == Depth(text, from, i, open, close)
    decreases next
  {
    if i < next {
      SkippedKeepsDepth(text, from, i, next - 1, open, close);
      assert IsBracket(text[next - 1]) ==> !Plain(text, from, next - 1);
    }
  }

  /** The index of the parenthesis that closes the call opened at `opening`. */
  method MatchingParen(text: string, opening: nat) returns (r: Result<nat, string>)
    requires opening <= |text|
    ensures r.Ok? ==>
              && opening <= r.value < |text| && Closes(text, opening, r.value)
              && forall j :: opening <= j < r.value ==> !Closes(text, opening, j)
    ensures r.Err? ==> forall j :: opening <= j < |text| ==> !Closes(text, opening, j)
  {
    var depth := 0;
    var flags := START;
    var i := opening;
    while i < |text|
      invariant opening <= i <= |text| && Stands(flags, text, opening, i)
      invariant depth == Depth(text, opening, i, '(', ')')
      invariant forall j :: opening <= j < i ==> !Closes(text, opening, j)
    {
      var next, code;
      ghost var at := i;
      flags, next, code := Skip(text, i, flags, opening);
      if code {
        if text[i] == '(' {
          depth := depth + 1;
        } else if text[i] == ')' {
          depth := depth - 1;
          if depth == 0 {
            return Ok(i);
          }
        }
      } else {
        SkippedKeepsDepth(text, opening, i, next, '(', ')');
        forall j | i <= j < next ensures !Closes(text, opening, j) {
          assert text[j] == ')' ==> IsBracket(text[j]);
        }
      }
      i := next;
    }
    r := Err("unclosed call");
  }

  // ------------------------------------------------------------------ pieces

  /** The text up to `i`, cut at its top-level commas, character by character. */
  function PiecesTo(text: string, i: nat): (pieces: seq<string>)
    requires i <= |text|
    ensures pieces != []
  {
    if i == 0 then [""]
    else
      var before := PiecesTo(text, i - 1);
      if TopComma(text, i - 1) then before + [""]
      else before[|before| - 1 := before[|before| - 1] + [text[i - 1]]]
  }

  function Pieces(text: string): seq<string> {
    PiecesTo(text, |text|)
  }

  function Join(pieces: seq<string>): string {
    if pieces == [] then ""
    else if |pieces| == 1 then pieces[0]
    else Join(pieces[..|pieces| - 1]) + "," + pieces[|pieces| - 1]
  }

  /** Where the commas of the joined pieces are. */
  function Seams(pieces: seq<string>): seq<nat> {
    if |pieces| <= 1 then []
    else Seams(pieces[..|pieces| - 1]) + [|Join(pieces[..|pieces| - 1])|]
  }

  function TopCommas(text: string, i: nat): seq<nat>
    requires i <= |text|
  {
    if i == 0 then []
    else if TopComma(text, i - 1) then TopCommas(text, i - 1) + [i - 1]
    else TopCommas(text, i - 1)
  }

  lemma JoinSnoc(pieces: seq<string>, last: string)
    ensures Join(pieces + [last]) == if pieces == [] then last else Join(pieces) + "," + last
  {
    assert (pieces + [last])[..|pieces|] == pieces;
  }

  lemma SeamsSnoc(pieces: seq<string>, last: string)
    ensures Seams(pieces + [last]) == if pieces == [] then [] else Seams(pieces) + [|Join(pieces)|]
  {
    assert (pieces + [last])[..|pieces|] == pieces;
  }

  lemma TopCommaIs(text: string, i: nat)
    requires i < |text|
    ensures TopComma(text, i) ==> text[i] == ','
  {}

  lemma {:induction false} PiecesRejoin(text: string, i: nat)
    requires i <= |text|
    ensures Join(PiecesTo(text, i)) == text[..i]
    ensures Seams(PiecesTo(text, i)) == TopCommas(text, i)
  {
    if i > 0 {
      PiecesRejoin(text, i - 1);
      OneMoreRejoins(text, i);
    }
  }

  lemma OneMoreRejoins(text: string, i: nat)
    requires 0 < i <= |text|
    requires Join(PiecesTo(text, i - 1)) == text[..i - 1] && Seams(PiecesTo(text, i - 1)) == TopCommas(text, i - 1)
    ensures Join(PiecesTo(text, i)) == text[..i] && Seams(PiecesTo(text, i)) == TopCommas(text, i)
  {
    hide TopComma, Join, Seams;
    var before := PiecesTo(text, i - 1);
    assert text[..i] == text[..i - 1] + [text[i - 1]];
    if TopComma(text, i - 1) {
      TopCommaIs(text, i - 1);
      JoinSnoc(before, "");
      SeamsSnoc(before, "");
      assert text[..i - 1] + "," + "" == text[..i];
    } else {
      GrowLast(before, text[i - 1]);
    }
  }

  lemma GrowLast(pieces: seq<string>, c: char)
    requires pieces != []
    ensures var grown := pieces[|pieces| - 1 := pieces[|pieces| - 1] + [c]];
            Join(grown) == Join(pieces) + [c] && Seams(grown) == Seams(pieces)
  {
    var init, last := pieces[..|pieces| - 1], pieces[|pieces| - 1];
    assert pieces == init + [last];
    assert pieces[|pieces| - 1 := last + [c]] == init + [last + [c]];
    JoinSnoc(init, last);
    SeamsSnoc(init, last);
    JoinSnoc(init, last + [c]);
    SeamsSnoc(init, last + [c]);
  }

  lemma {:induction false} TopCommasAreAll(text: string, i: nat)
    requires i <= |text|
    ensures forall j: nat :: j in TopCommas(text, i) <==> j < i && TopComma(text, j)
  {
    if i > 0 {
      TopCommasAreAll(text, i - 1);
    }
  }

  /**
   * Rejoining the pieces with commas gives the text back, and the commas that
   * come from rejoining are exactly the top-level ones: none lies inside a
   * string, a comment or a bracket, and no top-level comma is left in a piece.
   */
  lemma SplitIsFaithful(text: string)
    ensures Join(Pieces(text)) == text
    ensures forall j: nat :: j in Seams(Pieces(text)) <==> j < |text| && TopComma(text, j)
  {
    PiecesRejoin(text, |text|);
    TopCommasAreAll(text, |text|);
    assert text[..|text|] == text;
  }

  /** Python's whitespace, for `str.strip`. */
  predicate IsSpace(c: char) {
    || c in "\t\n\r " || '\U{0B}' <= c <= '\U{0C}' || '\U{1C}' <= c <= '\U{1F}'
    || c == '\U{85}' || c == '\U{A0}' || c == '\U{1680}' || '\U{2000}' <= c <= '\U{200A}'
    || c == '\U{2028}' || c == '\U{2029}' || c == '\U{202F}' || c == '\U{205F}' || c == '\U{3000}'
  }

  function StripLeft(s: string): string {
    if s != "" && IsSpace(s[0]) then StripLeft(s[1..]) else s
  }

  function Strip(s: string): string
  {
    var t := StripLeft(s);
    StripRight(t)
  }

  function StripRight(s: string): string {
    if s != "" && IsSpace(s[|s| - 1]) then StripRight(s[..|s| - 1]) else s
  }

  /** `s` from `a` to `b`, with nothing but whitespace around it and none at its ends. */
  ghost predicate TrimmedTo(s: string, a: nat, b: nat) {
    && a <= b <= |s|
    && (forall i :: 0 <= i < a || b <= i < |s| ==> IsSpace(s[i]))
    && (a < b ==> !IsSpace(s[a]) && !IsSpace(s[b - 1]))
  }

  lemma {:induction false} StripLeftTrims(s: string) returns (a: nat)
    ensures a <= |s| && StripLeft(s) == s[a..] && (a < |s| ==> !IsSpace(s[a]))
    ensures forall i :: 0 <= i < a ==> IsSpace(s[i])
  {
    a := 0;
    if s != "" && IsSpace(s[0]) {
      a := StripLeftTrims(s[1..]);
      assert forall i :: 0 < i < |s| ==> s[i] == s[1..][i - 1];
      a := a + 1;
    }
  }

  lemma {:induction false} StripRightTrims(s: string) returns (b: nat)
    ensures b <= |s| && StripRight(s) == s[..b] && (b > 0 ==> !IsSpace(s[b - 1]))
    ensures forall i :: b <= i < |s| ==> IsSpace(s[i])
  {
    b := |s|;
    if s != "" && IsSpace(s[|s| - 1]) {
      b := StripRightTrims(s[..|s| - 1]);
    }
  }

  /** Stripping cuts a slice out of the text: all whitespace at its ends, and no more. */
  lemma StripIsTrimmed(s: string)
    ensures exists a: nat, b: nat :: TrimmedTo(s, a, b) && Strip(s) == s[a..b]
  {
    var a := StripLeftTrims(s);
    var b := StripRightTrims(s[a..]);
    assert s[a..][..b] == s[a..a + b];
    assert forall i :: a <= i < |s| ==> s[i] == s[a..][i - a];
    assert TrimmedTo(s, a, a + b);
  }

  function Stripped(pieces: seq<string>): seq<string> {
    if pieces == [] then [] else Stripped(pieces[..|pieces| - 1]) + [Strip(pieces[|pieces| - 1])]
  }

  function NonEmpty(pieces: seq<string>): seq<string> {
    if pieces == [] then []
    else if pieces[|pieces| - 1] == "" then NonEmpty(pieces[..|pieces| - 1])
    else NonEmpty(pieces[..|pieces| - 1]) + [pieces[|pieces| - 1]]
  }

  lemma {:induction false} SkippedStaysInPiece(text: string, i: nat, next: nat)
    requires i <= next <= |text|
    requires forall j :: i <= j < next ==> !TopComma(text, j)
    ensures var before := PiecesTo(text, i);
            PiecesTo(text, next) == before[|before| - 1 := before[|before| - 1] + text[i..next]]
    decreases next
  {
    if i < next {
      SkippedStaysInPiece(text, i, next - 1);
      assert text[i..next] == text[i..next - 1] + [text[next - 1]];
      var before := PiecesTo(text, i);
      var last := before[|before| - 1];
      assert last + text[i..next] == last + text[i..next - 1] + [text[next - 1]];
    } else {
      var before := PiecesTo(text, i);
      assert before[|before| - 1] + text[i..next] == before[|before| - 1];
      assert before[|before| - 1 := before[|before| - 1]] == before;
    }
  }

  /** The three depths before `i`. */
  ghost predicate Depths(text: string, i: nat, parens: int, squares: int, braces: int) {
    && i <= |text|
    && parens == Depth(text, 0, i, '(', ')') && squares == Depth(text, 0, i, '[', ']') && braces == Depth(text, 0, i, '{', '}')
  }

  function Turn(c: char, open: char, close: char): int {
    if c == open then 1 else if c == close then -1 else 0
  }

  lemma CodeTurns(text: string, i: nat, parens: int, squares: int, braces: int)
    requires i < |text| && Plain(text, 0, i) && Depths(text, i, parens, squares, braces)
    ensures Depths(text, i + 1,
                   parens + Turn(text[i], '(', ')'), squares + Turn(text[i], '[', ']'), braces + Turn(text[i], '{', '}'))
  {}

  lemma SkippedKeepsDepths(text: string, i: nat, next: nat, parens: int, squares: int, braces: int)
    requires i <= next <= |text| && Depths(text, i, parens, squares, braces)
    requires forall j {:trigger text[j]} :: i <= j < next && IsBracket(text[j]) ==> !Plain(text, 0, j)
    ensures Depths(text, next, parens, squares, braces)
  {
    SkippedKeepsDepth(text, 0, i, next, '(', ')');
    SkippedKeepsDepth(text, 0, i, next, '[', ']');
    SkippedKeepsDepth(text, 0, i, next, '{', '}');
  }

  lemma NoTopComma(text: string, i: nat, next: nat)
    requires i <= next <= |text|
    requires forall j {:trigger text[j]} :: i <= j < next && text[j] == ',' ==> !Plain(text, 0, j)
    ensures forall j :: i <= j < next ==> !TopComma(text, j)
  {}

  lemma TopCommaByDepths(text: string, i: nat, parens: int, squares: int, braces: int)
    requires i < |text| && Plain(text, 0, i) && Depths(text, i, parens, squares, braces)
    ensures TopComma(text, i) <==> text[i] == ',' && parens == 0 && squares == 0 && braces == 0
  {}

  /** The text up to `i` is cut into `parts`, stripped, and a piece that has begun at `start`. */
  ghost predicate Parted(text: string, i: nat, start: nat, parts: seq<string>) {
    && start <= i <= |text|
    && var pieces := PiecesTo(text, i);
       pieces[|pieces| - 1] == text[start..i] && parts == Stripped(pieces[..|pieces| - 1])
  }

  method SplitArgs(text: string) returns (args: seq<string>)
    ensures args == NonEmpty(Stripped(Pieces(text)))
  {
    assert Stands(START, text, 0, 0) && Depths(text, 0, 0, 0, 0) && Parted(text, 0, 0, []);
    hide Stands, Depths, Parted, TopComma, Plain, Depth, ModeAt, IsBracket, Strip, Stripped, PiecesTo, Pieces,
      NonEmpty;
    var parts: seq<string> := [];
    var start := 0;
    var parens, squares, braces := 0, 0, 0;
    var flags := START;
    var i := 0;
    while i < |text|
      invariant start <= i <= |text| && Stands(flags, text, 0, i)
      invariant Depths(text, i, parens, squares, braces) && Parted(text, i, start, parts)
    {
      var next, code;
      flags, next, code := Skip(text, i, flags, 0);
      if code {
        var c := text[i];
        TopCommaByDepths(text, i, parens, squares, braces);
        CodeTurns(text, i, parens, squares, braces);
        assert c == ',' ==> Turn(c, '(', ')') == 0 && Turn(c, '[', ']') == 0 && Turn(c, '{', '}') == 0;
        if c == ',' && parens == 0 && squares == 0 && braces == 0 {
          CutHere(text, i, start, parts);
          parts := parts + [Strip(text[start..i])];
          start := i + 1;
        } else {
          GoOn(text, i, next, start, parts);
          parens, squares, braces := CountBracket(c, parens, squares, braces);
        }
      } else {
        SkippedKeepsDepths(text, i, next, parens, squares, braces);
        NoTopComma(text, i, next);
        GoOn(text, i, next, start, parts);
      }
      i := next;
    }
    LastPart(text, start, parts);
    parts := parts + [Strip(text[start..])];
    args := DropEmpty(parts);
  }

  /** The branches for brackets. */
  method CountBracket(c: char, parens: int, squares: int, braces: int) returns (p: int, s: int, b: int)
    ensures p == parens + Turn(c, '(', ')') && s == squares + Turn(c, '[', ']') && b == braces + Turn(c, '{', '}')
  {
    p, s, b := parens, squares, braces;
    if c == '(' {
      p := p + 1;
    } else if c == ')' {
      p := p - 1;
    } else if c == '[' {
      s := s + 1;
    } else if c == ']' {
      s := s - 1;
    } else if c == '{' {
      b := b + 1;
    } else if c == '}' {
      b := b - 1;
    }
  }

  lemma CutHere(text: string, i: nat, start: nat, parts: seq<string>)
    requires i < |text| && TopComma(text, i) && Parted(text, i, start, parts)
    ensures Parted(text, i + 1, i + 1, parts + [Strip(text[start..i])])
  {
    hide Strip;
    var before := PiecesTo(text, i);
    assert PiecesTo(text, i + 1) == before + [""];
    assert (before + [""])[..|before|] == before;
  }

  lemma GoOn(text: string, i: nat, next: nat, start: nat, parts: seq<string>)
    requires i <= next <= |text| && Parted(text, i, start, parts)
    requires forall j :: i <= j < next ==> !TopComma(text, j)
    ensures Parted(text, next, start, parts)
  {
    SkippedStaysInPiece(text, i, next);
    assert text[start..next] == text[start..i] + text[i..next];
    var before, pieces := PiecesTo(text, i), PiecesTo(text, next);
    assert pieces[..|pieces| - 1] == before[..|before| - 1];
  }

  lemma LastPart(text: string, start: nat, parts: seq<string>)
    requires Parted(text, |text|, start, parts)
    ensures parts + [Strip(text[start..])] == Stripped(Pieces(text))
  {
    hide Strip;
    assert text[start..|text|] == text[start..];
  }

  method DropEmpty(parts: seq<string>) returns (kept: seq<string>)
    ensures kept == NonEmpty(parts)
  {
    kept := [];
    for i := 0 to |parts|
      invariant kept == NonEmpty(parts[..i])
    {
      assert parts[..i + 1][..i] == parts[..i];
      if parts[i] != "" {
        kept := kept + [parts[i]];
      }
    }
    assert parts[..|parts|] == parts;
  }

  // ------------------------------------------------------- the arguments kept

  ghost predicate Blank(s: string) {
    forall i :: 0 <= i < |s| ==> IsSpace(s[i])
  }

  lemma EmptyIffBlank(s: string)
    ensures Strip(s) == "" <==> Blank(s)
  {
    StripIsTrimmed(s);
    var a: nat, b: nat :| TrimmedTo(s, a, b) && Strip(s) == s[a..b];
    if a < b {
      assert !IsSpace(s[a]);
    }
  }

  /** `at` are the places of exactly the pieces that are not blank, in order. */
  ghost predicate PlacesOfFilled(pieces: seq<string>, at: seq<nat>) {
    && (forall k :: 0 <= k < |at| ==> at[k] < |pieces| && !Blank(pieces[at[k]]))
    && (forall j, k :: 0 <= j < k < |at| ==> at[j] < at[k])
    && forall i: nat :: i < |pieces| && !Blank(pieces[i]) ==> i in at
  }

  ghost predicate TakenAt(args: seq<string>, pieces: seq<string>, at: seq<nat>) {
    |args| == |at| && forall k :: 0 <= k < |at| ==> at[k] < |pieces| && args[k] == Strip(pieces[at[k]])
  }

  /** The arguments are the pieces that are not blank, in their order, each without the whitespace around it. */
  lemma {:induction false} ArgumentsAreFilledPieces(pieces: seq<string>) returns (at: seq<nat>)
    ensures PlacesOfFilled(pieces, at) && TakenAt(NonEmpty(Stripped(pieces)), pieces, at)
  {
    if pieces == [] {
      return [];
    }
    hide Blank, NonEmpty, Stripped, Strip, PlacesOfFilled, TakenAt;
    var init, last := pieces[..|pieces| - 1], pieces[|pieces| - 1];
    at := ArgumentsAreFilledPieces(init);
    LastFilled(pieces);
    PlacesSnoc(pieces, at);
    TakenSnoc(NonEmpty(Stripped(init)), pieces, at);
    if !Blank(last) {
      at := at + [|pieces| - 1];
    }
  }

  lemma TakenSnoc(args: seq<string>, pieces: seq<string>, at: seq<nat>)
    requires pieces != [] && TakenAt(args, pieces[..|pieces| - 1], at)
    ensures var last := pieces[|pieces| - 1];
            TakenAt(args + if Blank(last) then [] else [Strip(last)], pieces, if Blank(last) then at else at + [|pieces| - 1])
  {
    hide Blank, Strip;
    assert args + [] == args;
  }

  lemma LastFilled(pieces: seq<string>)
    requires pieces != []
    ensures var init, last := pieces[..|pieces| - 1], pieces[|pieces| - 1];
            NonEmpty(Stripped(pieces)) == NonEmpty(Stripped(init)) + if Blank(last) then [] else [Strip(last)]
  {
    hide Strip, Blank;
    EmptyIffBlank(pieces[|pieces| - 1]);
    var stripped := Stripped(pieces);
    assert stripped[..|stripped| - 1] == Stripped(pieces[..|pieces| - 1]);
  }

  lemma PlacesSnoc(pieces: seq<string>, at: seq<nat>)
    requires pieces != [] && PlacesOfFilled(pieces[..|pieces| - 1], at)
    ensures PlacesOfFilled(pieces, if Blank(pieces[|pieces| - 1]) then at else at + [|pieces| - 1])
  {
    hide Blank;
    var init, last := pieces[..|pieces| - 1], |pieces| - 1;
    var more := if Blank(pieces[last]) then at else at + [last];
    forall i: nat | i < |pieces| && !Blank(pieces[i]) ensures i in more {
      if i < last {
        assert init[i] == pieces[i] && i in at;
      }
    }
  }

  // ------------------------------------------- what the automaton makes of text

  ghost function CodePlaces(text: string, from: nat, i: nat, c: char): set<nat>
    requires from <= i <= |text|
  {
    set j: nat | from <= j < i && text[j] == c && Plain(text, from, j)
  }

  /** How many characters `c` stand in code before `i`, scanning from `from`. */
  ghost function CodeCount(text: string, from: nat, i: nat, c: char): nat
    requires from <= i <= |text|
  {
    |CodePlaces(text, from, i, c)|
  }

  lemma {:induction false} DepthCounts(text: string, from: nat, i: nat, open: char, close: char)
    requires from <= i <= |text| && open != close
    ensures Depth(text, from, i, open, close) == CodeCount(text, from, i, open) - CodeCount(text, from, i, close)
  {
    if i > from {
      DepthCounts(text, from, i - 1, open, close);
      OneMoreCounted(text, from, i - 1, open);
      OneMoreCounted(text, from, i - 1, close);
    } else {
      assert CodePlaces(text, from, i, open) == {} && CodePlaces(text, from, i, close) == {};
    }
  }

  lemma OneMoreCounted(text: string, from: nat, i: nat, c: char)
    requires from <= i < |text|
    ensures CodeCount(text, from, i + 1, c) ==
            CodeCount(text, from, i, c) + if text[i] == c && Plain(text, from, i) then 1 else 0
  {
    assert CodePlaces(text, from, i + 1, c) ==
           CodePlaces(text, from, i, c) + if text[i] == c && Plain(text, from, i) then {i} else {};
  }

  /** A comma splits exactly when it is code and as many brackets of each kind were opened as closed in code before it. */
  lemma TopCommaIff(text: string, i: nat)
    requires i < |text|
    ensures TopComma(text, i) <==>
            && text[i] == ',' && Plain(text, 0, i)
            && CodeCount(text, 0, i, '(') == CodeCount(text, 0, i, ')')
            && CodeCount(text, 0, i, '[') == CodeCount(text, 0, i, ']')
            && CodeCount(text, 0, i, '{') == CodeCount(text, 0, i, '}')
  {
    DepthCounts(text, 0, i, '(', ')');
    DepthCounts(text, 0, i, '[', ']');
    DepthCounts(text, 0, i, '{', '}');
  }

  /** A parenthesis ends the call exactly when it is code and, with it, as many were closed as opened in code. */
  lemma ClosesIff(text: string, from: nat, i: nat)
    requires from <= i < |text|
    ensures Closes(text, from, i) <==>
            && text[i] == ')' && Plain(text, from, i)
            && CodeCount(text, from, i + 1, '(') == CodeCount(text, from, i + 1, ')')
  {
    DepthCounts(text, from, i + 1, '(', ')');
  }

  /** Nothing from `i` to `j` is a quote like `q` or a backslash. */
  ghost predicate Unbroken(text: string, i: nat, j: nat, q: char) {
    j <= |text| && forall k :: i <= k < j ==> text[k] != q && text[k] != '\\'
  }

  /** A double quote, single quote or backquote in code opens a string that lasts until the same quote comes unescaped. */
  lemma {:induction false} StringLasts(text: string, from: nat, i: nat, j: nat)
    requires from <= i < j <= |text| && Plain(text, from, i) && text[i] in {'"', '\'', '`'}
    requires Unbroken(text, i + 1, j, text[i])
    ensures ModeAt(text, from, j) == Str(text[i])
    ensures j < |text| && text[j] == text[i] ==> ModeAt(text, from, j + 1) == Code
    ensures j + 1 < |text| && text[j] == '\\' ==> ModeAt(text, from, j + 2) == Str(text[i])
    decreases j
  {
    if j > i + 1 {
      StringLasts(text, from, i, j - 1);
    }
  }

  /** Two slashes in code, the first not a second one, open a comment that lasts to the end of the line. */
  lemma {:induction false} LineCommentLasts(text: string, from: nat, i: nat, j: nat)
    requires from <= i && i + 2 <= j <= |text| && ModeAt(text, from, i) == Code && text[i] == '/' && text[i + 1] == '/'
    requires forall k :: i + 2 <= k < j ==> text[k] != '\n'
    ensures ModeAt(text, from, j) == Line
    ensures j < |text| && text[j] == '\n' ==> ModeAt(text, from, j + 1) == Code
    decreases j
  {
    assert ModeAt(text, from, i + 1) == Slash;
    if j > i + 2 {
      LineCommentLasts(text, from, i, j - 1);
    }
  }

  /** A slash and a star in code open a comment that lasts until a star and a slash. */
  lemma {:induction false} BlockCommentLasts(text: string, from: nat, i: nat, j: nat)
    requires from <= i && i + 2 <= j <= |text| && ModeAt(text, from, i) == Code && text[i] == '/' && text[i + 1] == '*'
    requires forall k :: i + 2 <= k && k + 1 < j ==> !(text[k] == '*' && text[k + 1] == '/')
    ensures ModeAt(text, from, j) == if j > i + 2 && text[j - 1] == '*' then BlockStar else Block
    ensures j < |text| && j > i + 2 && text[j - 1] == '*' && text[j] == '/' ==> ModeAt(text, from, j + 1) == Code
    decreases j
  {
    assert ModeAt(text, from, i + 1) == Slash;
    if j > i + 2 {
      BlockCommentLasts(text, from, i, j - 1);
    }
  }

  /** Whatever else is read in code stays code. */
  lemma CodeGoesOn(text: string, from: nat, i: nat)
    requires from <= i < |text| && ModeAt(text, from, i) == Code
    requires text[i] !in {'"', '\'', '`', '/'} || (text[i] == '/' && i + 1 < |text| && text[i + 1] !in {'/', '*'})
    ensures Plain(text, from, i + 1)
    ensures text[i] == '/' && text[i + 1] !in {'"', '\'', '`'} ==> ModeAt(text, from, i + 2) == Code
    ensures text[i] != '/' ==> ModeAt(text, from, i + 1) == Code
  {
    if text[i] == '/' {
      assert ModeAt(text, from, i + 2) == NextMode(ModeAt(text, from, i + 1), text[i + 1]);
    }
  }

  // ---------------------------------------------------------------- lockstep

  /** The text between the parentheses of a call, scanned alone, is read as it is within the file. */
  lemma {:induction false} SameModeInside(text: string, opening: nat, end: nat, i: nat)
    requires opening < end <= |text| && text[opening] == '(' && opening + 1 + i <= end
    ensures ModeAt(text[opening + 1..end], 0, i) == ModeAt(text, opening, opening + 1 + i)
  {
    if i == 0 {
      assert ModeAt(text, opening, opening) == Code;
    } else {
      SameModeInside(text, opening, end, i - 1);
    }
  }

  lemma {:induction false} SameDepthInside(text: string, opening: nat, end: nat, i: nat, open: char, close: char)
    requires opening < end <= |text| && text[opening] == '(' && opening + 1 + i <= end
    requires close != '('
    ensures Depth(text[opening + 1..end], 0, i, open, close) + (if open == '(' then 1 else 0) ==
            Depth(text, opening, opening + 1 + i, open, close)
  {
    if i == 0 {
      assert ModeAt(text, opening, opening) == Code && Depth(text, opening, opening, open, close) == 0;
    } else {
      SameDepthInside(text, opening, end, i - 1, open, close);
      SameModeInside(text, opening, end, i - 1);
    }
  }

  /**
   * The scanners run in lockstep: at the parenthesis that closes a call the
   * splitter is back in plain code at depth zero, and on the way its depth
   * never went below zero.
   */
  lemma ArgumentsEndInPlainCode(text: string, opening: nat, end: nat)
    requires opening < end < |text| && text[opening] == '(' && Closes(text, opening, end)
    requires forall j :: opening <= j < end ==> !Closes(text, opening, j)
    ensures var inner := text[opening + 1..end];
            && Plain(inner, 0, |inner|)
            && Depth(inner, 0, |inner|, '(', ')') == 0
            && forall i :: 0 <= i <= |inner| ==> Depth(inner, 0, i, '(', ')') >= 0
  {
    var inner := text[opening + 1..end];
    SameModeInside(text, opening, end, |inner|);
    SameDepthInside(text, opening, end, |inner|, '(', ')');
    forall i | 0 <= i <= |inner| ensures Depth(inner, 0, i, '(', ')') >= 0 {
      SameDepthInside(text, opening, end, i, '(', ')');
      DepthStaysPositive(text, opening, end, opening + 1 + i);
    }
  }

  lemma {:induction false} DepthStaysPositive(text: string, opening: nat, end: nat, i: nat)
    requires opening < i <= end < |text| && text[opening] == '('
    requires forall j :: opening <= j < end ==> !Closes(text, opening, j)
    ensures Depth(text, opening, i, '(', ')') >= 1
    decreases i
  {
    if i == opening + 1 {
      assert ModeAt(text, opening, opening) == Code && Depth(text, opening, opening, '(', ')') == 0;
    } else {
      DepthStaysPositive(text, opening, end, i - 1);
      assert !Closes(text, opening, i - 1);
    }
  }

  /** How a call is read: find its end, then split what is inside. */
  method ReadCall(text: string, opening: nat) returns (r: Result<seq<string>, string>)
    requires opening < |text| && text[opening] == '('
    ensures r.Err? <==> forall j :: opening <= j < |text| ==> !Closes(text, opening, j)
    ensures r.Ok? ==> exists end ::
              && opening < end < |text| && Closes(text, opening, end)
              && (forall j :: opening <= j < end ==> !Closes(text, opening, j))
              && r.value == NonEmpty(Stripped(Pieces(text[opening + 1..end])))
  {
    var end := MatchingParen(text, opening);
    if end.Err? {
      return Err(end.error);
    }
    var args := SplitArgs(text[opening + 1..end.value]);
    r := Ok(args);
  }
}
