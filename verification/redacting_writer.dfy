/**
 * The log redactor of the Centrifugo entrypoint: a byte stream arrives in
 * arbitrary chunks and leaves with every secret replaced by a marker.
 *
 * The reference is `Redact`, which sees the whole stream at once. The writer
 * sees one chunk at a time, holds back a tail, and flushes early at newlines.
 */
module RedactingWriter {
  newtype byte = x: int | 0 <= x < 256
  type Bytes = seq<byte>

  const NEWLINE: byte := 10
  const OPEN_BRACKET: byte := 91
  const CLOSE_BRACKET: byte := 93

  /** "REDACTED" and "[REDACTED]". */
  const MARKER_WORD: Bytes := [82, 69, 68, 65, 67, 84, 69, 68]
  const MARKER: Bytes := [OPEN_BRACKET] + MARKER_WORD + [CLOSE_BRACKET]

  // ---------------------------------------------------------------- reference

  /** Length of the longest secret that `input` starts with; 0 if there is none. */
  function LongestMatch(secrets: seq<Bytes>, input: Bytes): (n: nat)
    ensures n <= |input|
  {
    if secrets == [] then 0
    else
      var rest := LongestMatch(secrets[1..], input);
      if secrets[0] <= input && |secrets[0]| > rest then |secrets[0]| else rest
  }

  lemma {:induction false} LongestMatchIsSecret(secrets: seq<Bytes>, input: Bytes)
    ensures var n := LongestMatch(secrets, input); n > 0 ==> input[..n] in secrets
  {
    if secrets != [] {
      LongestMatchIsSecret(secrets[1..], input);
      if secrets[0] <= input {
        assert input[..|secrets[0]|] == secrets[0];
      }
    }
  }

  lemma {:induction false} LongestMatchIsLongest(secrets: seq<Bytes>, input: Bytes, s: Bytes)
    requires s in secrets && s <= input
    ensures |s| <= LongestMatch(secrets, input)
  {
    if s != secrets[0] {
      LongestMatchIsLongest(secrets[1..], input, s);
    }
  }

  datatype Token = Literal(b: byte) | Hidden(secret: Bytes)

  /** The token at the head of `input`. */
  function HeadToken(secrets: seq<Bytes>, input: Bytes): Token
    requires input != []
  {
    var n := LongestMatch(secrets, input);
    if n == 0 then Literal(input[0]) else Hidden(input[..n])
  }

  /** How many bytes the token at the head of `input` stands for. */
  function Advance(secrets: seq<Bytes>, input: Bytes): (n: nat)
    requires input != []
    ensures 0 < n <= |input|
  {
    var n := LongestMatch(secrets, input);
    if n == 0 then 1 else n
  }

  /** One-shot, left-to-right, longest-first tokenisation of a whole stream. */
  function Tokens(secrets: seq<Bytes>, input: Bytes): (tokens: seq<Token>)
    decreases |input|
  {
    if input == [] then []
    else [HeadToken(secrets, input)] + Tokens(secrets, input[Advance(secrets, input)..])
  }

  function RenderToken(t: Token): Bytes {
    match t
    case Literal(b) => [b]
    case Hidden(_) => MARKER
  }

  function Render(tokens: seq<Token>): Bytes {
    if tokens == [] then [] else RenderToken(tokens[0]) + Render(tokens[1..])
  }

  /** The bytes a token stands for. */
  function TokenSource(t: Token): Bytes {
    match t
    case Literal(b) => [b]
    case Hidden(s) => s
  }

  function Source(tokens: seq<Token>): Bytes {
    if tokens == [] then [] else TokenSource(tokens[0]) + Source(tokens[1..])
  }

  function Redact(secrets: seq<Bytes>, input: Bytes): Bytes {
    Render(Tokens(secrets, input))
  }

  /** What replaces the token at the head of `input`. */
  function Emit(secrets: seq<Bytes>, input: Bytes): (out: Bytes)
    requires input != []
    ensures out != []
  {
    RenderToken(HeadToken(secrets, input))
  }

  lemma HeadOf(secrets: seq<Bytes>, input: Bytes)
    requires input != []
    ensures var n := LongestMatch(secrets, input);
            && Advance(secrets, input) == (if n > 0 then n else 1)
            && Emit(secrets, input) == if n > 0 then MARKER else [input[0]]
  {}

  lemma RedactUnfolds(secrets: seq<Bytes>, input: Bytes)
    requires input != []
    ensures Redact(secrets, input) == Emit(secrets, input) + Redact(secrets, input[Advance(secrets, input)..])
  {
    hide LongestMatch, Advance;
    var head, tail := HeadToken(secrets, input), Tokens(secrets, input[Advance(secrets, input)..]);
    assert Tokens(secrets, input) == [head] + tail;
    assert ([head] + tail)[1..] == tail;
  }

  /** The tokens spell the input, and hide nothing but secrets. */
  lemma {:induction false} TokensCoverInput(secrets: seq<Bytes>, input: Bytes)
    ensures Source(Tokens(secrets, input)) == input
    ensures forall t :: t in Tokens(secrets, input) && t.Hidden? ==> t.secret in secrets
    decreases |input|
  {
    hide HeadToken, Advance, TokenSource;
    if input != [] {
      var head, n := HeadToken(secrets, input), Advance(secrets, input);
      var rest := input[n..];
      HeadStandsFor(secrets, input);
      TokensCoverInput(secrets, rest);
      assert Tokens(secrets, input) == [head] + Tokens(secrets, rest);
      assert ([head] + Tokens(secrets, rest))[1..] == Tokens(secrets, rest);
      assert input == input[..n] + rest;
    }
  }

  lemma HeadStandsFor(secrets: seq<Bytes>, input: Bytes)
    requires input != []
    ensures var head := HeadToken(secrets, input);
            && TokenSource(head) == input[..Advance(secrets, input)]
            && (head.Hidden? ==> head.secret in secrets)
  {
    LongestMatchIsSecret(secrets, input);
    assert input[..1] == [input[0]];
  }

  lemma {:induction false} LiteralRunIsSource(tokens: seq<Token>, s: Bytes)
    requires |s| <= |tokens|
    requires forall k :: 0 <= k < |s| ==> tokens[k] == Literal(s[k])
    ensures s <= Source(tokens)
    decreases |s|
  {
    if s != [] {
      assert tokens[0] == Literal(s[0]);
      forall k | 0 <= k < |s[1..]| ensures tokens[1..][k] == Literal(s[1..][k]) {
        assert tokens[1 + k] == Literal(s[1 + k]);
      }
      LiteralRunIsSource(tokens[1..], s[1..]);
      assert s == [s[0]] + s[1..];
    }
  }

  lemma LiteralHeadIsSource(tokens: seq<Token>, s: Bytes)
    requires 0 + |s| <= |tokens|
    requires forall k :: 0 <= k < |s| ==> tokens[0 + k] == Literal(s[k])
    ensures s <= Source(tokens)
  {
    forall k | 0 <= k < |s| ensures tokens[k] == Literal(s[k]) {
      assert tokens[0 + k] == Literal(s[k]);
    }
    LiteralRunIsSource(tokens, s);
  }

  ghost predicate SpelledAt(tokens: seq<Token>, s: Bytes, at: nat) {
    at + |s| <= |tokens| && forall k :: 0 <= k < |s| ==> tokens[at + k] == Literal(s[k])
  }

  /** What consecutive literal bytes of the output spell is never a secret. */
  lemma {:induction false} LiteralRunIsNoSecret(secrets: seq<Bytes>, input: Bytes, s: Bytes, at: nat)
    requires s != [] && SpelledAt(Tokens(secrets, input), s, at)
    ensures s !in secrets
    decreases |input|
  {
    var tokens := Tokens(secrets, input);
    if at == 0 {
      LiteralHeadIsSource(tokens, s);
      TokensCoverInput(secrets, input);
      assert tokens[0 + 0] == Literal(s[0]);
      if s in secrets {
        LongestMatchIsLongest(secrets, input, s);
      }
    } else {
      var rest := input[Advance(secrets, input)..];
      assert tokens[1..] == Tokens(secrets, rest);
      forall k | 0 <= k < |s| ensures Tokens(secrets, rest)[at - 1 + k] == Literal(s[k]) {
        assert tokens[at + k] == Literal(s[k]);
      }
      LiteralRunIsNoSecret(secrets, rest, s, at - 1);
    }
  }

  ghost predicate OccursAt(s: Bytes, text: Bytes, at: nat) {
    at + |s| <= |text| && text[at..at + |s|] == s
  }

  ghost predicate Occurs(s: Bytes, text: Bytes) {
    exists at: nat :: OccursAt(s, text, at)
  }

  lemma OccursPast(s: Bytes, head: Bytes, tail: Bytes, at: nat)
    requires at >= |head| && OccursAt(s, head + tail, at)
    ensures OccursAt(s, tail, at - |head|)
  {
    assert tail[at - |head|..at - |head| + |s|] == (head + tail)[at..at + |s|];
  }

  ghost predicate Bracketless(s: Bytes) {
    OPEN_BRACKET !in s && CLOSE_BRACKET !in s
  }

  /** Laid over the marker from its byte `d` on, `s` agrees with it wherever both have a byte, and some byte does. */
  ghost predicate AgreesAt(s: Bytes, d: int) {
    -|s| < d < |MARKER| && forall k :: 0 <= k < |s| && 0 <= k + d < |MARKER| ==> s[k] == MARKER[k + d]
  }

  ghost predicate MeetsMarker(s: Bytes) {
    exists d :: AgreesAt(s, d)
  }

  lemma SpelledLater(tokens: seq<Token>, s: Bytes)
    requires s != [] && tokens != [] && tokens[0] == Literal(s[0]) && SpelledAt(tokens[1..], s[1..], 0)
    ensures SpelledAt(tokens, s, 0)
  {
    forall k | 0 <= k < |s| ensures tokens[0 + k] == Literal(s[k]) {
      if k > 0 {
        assert tokens[1..][0 + (k - 1)] == Literal(s[1..][k - 1]);
      }
    }
  }

  lemma AgreesLater(s: Bytes, d: int)
    requires s != [] && d <= 0 && AgreesAt(s[1..], d)
    ensures AgreesAt(s, d - 1)
  {
    forall k | 0 <= k < |s| && 0 <= k + (d - 1) < |MARKER| ensures s[k] == MARKER[k + (d - 1)] {
      assert s[1..][k - 1] == MARKER[k - 1 + d];
    }
  }

  /** What the output starts with is spelled by literals, or runs into a marker. */
  lemma {:induction false} StartMeetsMarker(tokens: seq<Token>, s: Bytes)
    requires s != [] && s <= Render(tokens)
    ensures SpelledAt(tokens, s, 0) || exists d :: d <= 0 && AgreesAt(s, d)
    decreases |s|
  {
    var head, tail := RenderToken(tokens[0]), Render(tokens[1..]);
    assert Render(tokens) == head + tail;
    if tokens[0].Hidden? {
      forall k | 0 <= k < |s| && 0 <= k + 0 < |MARKER| ensures s[k] == MARKER[k + 0] {
        assert (head + tail)[k] == head[k];
      }
      assert AgreesAt(s, 0);
    } else {
      assert s[0] == (head + tail)[0] == head[0];
      var rest := s[1..];
      assert rest <= tail;
      if rest == [] {
        SpelledLater(tokens, s);
      } else {
        StartMeetsMarker(tokens[1..], rest);
        if SpelledAt(tokens[1..], rest, 0) {
          SpelledLater(tokens, s);
        } else {
          var d :| d <= 0 && AgreesAt(rest, d);
          AgreesLater(s, d);
          assert d - 1 <= 0;
        }
      }
    }
  }

  /** Any occurrence in the output lies in a run of literals, or meets a marker. */
  lemma {:induction false} OccurrenceMeetsMarker(tokens: seq<Token>, s: Bytes, at: nat)
    requires s != [] && OccursAt(s, Render(tokens), at)
    ensures MeetsMarker(s) || exists i: nat :: SpelledAt(tokens, s, i)
    decreases |tokens|
  {
    var head, tail := RenderToken(tokens[0]), Render(tokens[1..]);
    var text := head + tail;
    assert Render(tokens) == text;
    if at >= |head| {
      OccursPast(s, head, tail, at);
      OccurrenceMeetsMarker(tokens[1..], s, at - |head|);
      if !MeetsMarker(s) {
        var i: nat :| SpelledAt(tokens[1..], s, i);
        forall k | 0 <= k < |s| ensures tokens[i + 1 + k] == Literal(s[k]) {
          assert tokens[1..][i + k] == Literal(s[k]);
        }
        assert SpelledAt(tokens, s, i + 1);
      }
    } else if tokens[0].Literal? {
      assert s <= Render(tokens);
      StartMeetsMarker(tokens, s);
    } else {
      forall k | 0 <= k < |s| && 0 <= k + at < |MARKER| ensures s[k] == MARKER[k + at] {
        assert text[at..at + |s|][k] == text[at + k] == head[at + k];
      }
      assert AgreesAt(s, at);
    }
  }

  /** No secret shows in the output unless some way of laying it over the marker agrees with it. */
  lemma VisibleMeetsMarker(secrets: seq<Bytes>, s: Bytes, input: Bytes)
    requires s in secrets && s != [] && Occurs(s, Redact(secrets, input))
    ensures MeetsMarker(s)
  {
    var tokens := Tokens(secrets, input);
    var at: nat :| OccursAt(s, Render(tokens), at);
    OccurrenceMeetsMarker(tokens, s, at);
    if i: nat :| SpelledAt(tokens, s, i) {
      LiteralRunIsNoSecret(secrets, input, s, i);
    }
  }

  /** Which brackets a secret shares with the marker it meets. */
  lemma SharedBrackets(s: Bytes, d: int)
    requires AgreesAt(s, d)
    ensures d <= 0 ==> OPEN_BRACKET in s
    ensures d < 0 ==> OPEN_BRACKET in s[1..]
    ensures d + |s| > 9 ==> CLOSE_BRACKET in s
  {
    if d <= 0 {
      assert s[-d] == MARKER[-d + d];
      assert d < 0 ==> s[1..][-d - 1] == s[-d];
    }
    if d + |s| > 9 {
      assert s[9 - d] == MARKER[9 - d + d];
    }
  }

  /** Without brackets, a secret can only meet the marker inside its word. */
  lemma BracketlessInWord(s: Bytes, d: int)
    requires s != [] && Bracketless(s) && AgreesAt(s, d)
    ensures 0 < d && OccursAt(s, MARKER_WORD, d - 1)
  {
    SharedBrackets(s, d);
    forall k | 0 <= k < |s| ensures MARKER_WORD[d - 1 + k] == s[k] {
      assert s[k] == MARKER[k + d];
    }
    assert MARKER_WORD[d - 1..d - 1 + |s|] == s;
  }

  /**
   * A secret without brackets can show up in the output only where the
   * marker's own word spells it, and whenever the word does, some input shows it.
   */
  lemma BracketlessSecretVisibleIff(secrets: seq<Bytes>, s: Bytes)
    requires s in secrets && s != [] && Bracketless(s)
    ensures (exists input :: Occurs(s, Redact(secrets, input))) <==> Occurs(s, MARKER_WORD)
  {
    if Occurs(s, MARKER_WORD) {
      var at: nat :| OccursAt(s, MARKER_WORD, at);
      WholeSecretIsHidden(secrets, s);
      assert OccursAt(s, MARKER, at + 1) by {
        assert MARKER[at + 1..at + 1 + |s|] == MARKER_WORD[at..at + |s|];
      }
      assert Occurs(s, Redact(secrets, s));
    } else {
      forall input ensures !Occurs(s, Redact(secrets, input)) {
        if Occurs(s, Redact(secrets, input)) {
          VisibleMeetsMarker(secrets, s, input);
          var d :| AgreesAt(s, d);
          BracketlessInWord(s, d);
        }
      }
    }
  }

  lemma WholeSecretIsHidden(secrets: seq<Bytes>, s: Bytes)
    requires s in secrets && s != []
    ensures Redact(secrets, s) == MARKER
  {
    RedactUnfolds(secrets, s);
    LongestMatchIsLongest(secrets, s, s);
    assert s[|s|..] == [];
    assert Redact(secrets, []) == [];
    assert MARKER + [] == MARKER;
  }

  /** Secrets of more than eight bytes without brackets never reach the output. */
  lemma LongSecretNeverVisible(secrets: seq<Bytes>, s: Bytes, input: Bytes)
    requires s in secrets && |s| > 8 && Bracketless(s)
    ensures !Occurs(s, Redact(secrets, input))
  {
    assert !Occurs(s, MARKER_WORD);
    BracketlessSecretVisibleIff(secrets, s);
  }

  // --------------------------------------------------- secrets with brackets

  lemma {:induction false} ShortIsKept(s: Bytes, input: Bytes)
    requires |input| < |s|
    ensures Redact([s], input) == input
    decreases |input|
  {
    if input != [] {
      LiteralHead(s, input);
      ShortIsKept(s, input[1..]);
      assert [input[0]] + input[1..] == input;
    }
  }

  /** Bytes before the first match stay as they are. */
  lemma {:induction false} LeadIsKept(s: Bytes, lead: Bytes, tail: Bytes)
    requires forall p :: 0 <= p < |lead| ==> !(s <= (lead + tail)[p..])
    ensures Redact([s], lead + tail) == lead + Redact([s], tail)
    decreases |lead|
  {
    hide Redact;
    var input := lead + tail;
    if lead == [] {
      assert input == tail;
    } else {
      assert !(s <= input[0..]) && input[0..] == input;
      LiteralHead(s, input);
      assert input[1..] == lead[1..] + tail;
      forall p | 0 <= p < |lead[1..]| ensures !(s <= (lead[1..] + tail)[p..]) {
        assert input[p + 1..] == (lead[1..] + tail)[p..];
      }
      LeadIsKept(s, lead[1..], tail);
      assert lead == [input[0]] + lead[1..];
      Associative([input[0]], lead[1..], Redact([s], tail));
    }
  }

  /** How many bytes of `s` come before the marker it is laid over. */
  function LeadOf(d: int): nat {
    if d < 0 then -d else 0
  }

  /** Written again after its own first `a` bytes, `s` begins nowhere before them. */
  ghost predicate Unspoiled(s: Bytes, a: nat)
    requires a <= |s|
  {
    forall p :: 0 <= p < a ==> !(s <= (s[..a] + s)[p..])
  }

  /** The bytes of `s` before the marker, `s` itself, and its bytes after the marker. */
  function Spelling(s: Bytes, d: int): Bytes
    requires -|s| < d < |MARKER|
  {
    s[..LeadOf(d)] + (s + if d + |s| > |MARKER| then s[|MARKER| - d..] else [])
  }

  /** Where nothing spoils it, a marker and the bytes around it spell the secret. */
  lemma SpelledAroundMarker(s: Bytes, d: int)
    requires s != [] && AgreesAt(s, d) && Unspoiled(s, LeadOf(d))
    ensures Occurs(s, Redact([s], Spelling(s, d)))
  {
    var a, rest := LeadOf(d), if d + |s| > |MARKER| then s[|MARKER| - d..] else [];
    UnspoiledStays(s, a, rest);
    LeadIsKept(s, s[..a], s + rest);
    SecretThenShort(s, rest);
    SpellsItself(s, d, s[..a] + (MARKER + rest));
  }

  lemma UnspoiledStays(s: Bytes, a: nat, rest: Bytes)
    requires a <= |s| && Unspoiled(s, a)
    ensures forall p :: 0 <= p < a ==> !(s <= (s[..a] + (s + rest))[p..])
  {
    forall p | 0 <= p < a ensures !(s <= (s[..a] + (s + rest))[p..]) {
      Associative(s[..a], s, rest);
      TailOfLonger(s[..a] + s, rest, p);
      PrefixOfLonger(s, (s[..a] + s)[p..], rest);
    }
  }

  lemma PrefixOfLonger(s: Bytes, x: Bytes, rest: Bytes)
    requires |s| <= |x|
    ensures s <= x + rest <==> s <= x
  {}

  lemma SecretThenShort(s: Bytes, rest: Bytes)
    requires |rest| < |s|
    ensures Redact([s], s + rest) == MARKER + rest
  {
    var input := s + rest;
    RedactUnfolds([s], input);
    LongestMatchIsLongest([s], input, s);
    LongestMatchIsSecret([s], input);
    HeadOf([s], input);
    assert input[|s|..] == rest;
    ShortIsKept(s, rest);
  }

  lemma SpellsItself(s: Bytes, d: int, text: Bytes)
    requires AgreesAt(s, d)
    requires text == s[..LeadOf(d)] + (MARKER + if d + |s| > |MARKER| then s[|MARKER| - d..] else [])
    ensures Occurs(s, text)
  {
    var at := d + LeadOf(d);
    forall k | 0 <= k < |s| ensures text[at + k] == s[k] {
      assert 0 <= k + d < |MARKER| ==> s[k] == MARKER[k + d];
    }
    assert text[at..at + |s|] == s;
    assert OccursAt(s, text, at);
  }

  /** `input` begins with the first `k` bytes of `s`, all of them kept, and goes on to show the rest. */
  ghost predicate Showing(s: Bytes, input: Bytes, k: nat) {
    && k < |s| && k <= |input| && input[..k] == s[..k]
    && (forall p :: 0 <= p < k ==> !(s <= input[p..]))
    && s[k..] <= Redact([s], input[k..])
  }

  /** Going on, it comes to a marker before `s` is complete. */
  lemma {:induction false} ShownAroundMarker(s: Bytes, input: Bytes, k: nat) returns (d: int)
    requires s != [] && Showing(s, input, k)
    ensures AgreesAt(s, d) && Unspoiled(s, LeadOf(d))
    decreases |s| - k
  {
    hide Redact, AgreesAt, Unspoiled;
    if s <= input[k..] {
      MarkerHere(s, input[k..], k);
      NothingEarlier(s, input, k);
      d := 0 - k;
      assert LeadOf(d) == k;
    } else {
      ByteKept(s, input, k);
      WholeIsPrefix(s, input, k + 1);
      d := ShownAroundMarker(s, input, k + 1);
    }
  }

  lemma MarkerHere(s: Bytes, tail: Bytes, k: nat)
    requires k < |s| && s <= tail && s[k..] <= Redact([s], tail)
    ensures AgreesAt(s, 0 - k)
  {
    RedactUnfolds([s], tail);
    HeadOf([s], tail);
    LongestMatchIsLongest([s], tail, s);
    var shown := Redact([s], tail);
    forall i | 0 <= i < |s| && 0 <= i - k < |MARKER| ensures s[i] == MARKER[i - k] {
      assert s[k..][i - k] == shown[i - k];
    }
  }

  lemma NothingEarlier(s: Bytes, input: Bytes, k: nat)
    requires Showing(s, input, k) && s <= input[k..]
    ensures Unspoiled(s, k)
  {
    hide Redact;
    var again, rest := s[..k] + s, input[k..][|s|..];
    assert input == again + rest;
    forall p | 0 <= p < k ensures !(s <= again[p..]) {
      assert !(s <= input[p..]);
      TailOfLonger(again, rest, p);
      PrefixOfLonger(s, again[p..], rest);
    }
  }

  lemma TailOfLonger(x: Bytes, rest: Bytes, p: nat)
    requires p <= |x|
    ensures (x + rest)[p..] == x[p..] + rest
  {}

  lemma LiteralHead(s: Bytes, tail: Bytes)
    requires tail != [] && !(s <= tail)
    ensures Redact([s], tail) == [tail[0]] + Redact([s], tail[1..])
  {
    assert [s][1..] == [];
    RedactUnfolds([s], tail);
    HeadOf([s], tail);
  }

  lemma ByteKept(s: Bytes, input: Bytes, k: nat)
    requires Showing(s, input, k) && !(s <= input[k..])
    ensures k < |input| && input[..k + 1] == s[..k + 1]
    ensures forall p :: 0 <= p < k + 1 ==> !(s <= input[p..])
    ensures s[k + 1..] <= Redact([s], input[k + 1..])
  {
    var tail := input[k..];
    hide Redact;
    ShownHasInput(s, s[k..], tail);
    LiteralHead(s, tail);
    assert tail[1..] == input[k + 1..];
    RestOfPrefix(s[k..], tail[0], Redact([s], tail[1..]));
    assert s[k..][1..] == s[k + 1..];
    assert input[..k + 1] == input[..k] + [input[k]] && s[..k + 1] == s[..k] + [s[k]];
  }

  lemma ShownHasInput(s: Bytes, x: Bytes, tail: Bytes)
    requires x != [] && x <= Redact([s], tail)
    ensures tail != []
  {}

  lemma RestOfPrefix(x: Bytes, b: byte, rest: Bytes)
    requires x != [] && x <= [b] + rest
    ensures x[0] == b && x[1..] <= rest
  {}

  lemma WholeIsPrefix(s: Bytes, input: Bytes, k: nat)
    requires k <= |s| && k <= |input| && input[..k] == s[..k]
    ensures input[0..] == input && (k == |s| ==> s <= input[0..])
  {}

  /**
   * A lone secret shows on some input if and only if at some offset it agrees
   * with the marker, and its bytes before the marker, with itself after them, do
   * not already begin it earlier.
   */
  lemma LoneSecretVisibleIff(s: Bytes)
    requires s != []
    ensures (exists input :: Occurs(s, Redact([s], input))) <==> exists d :: AgreesAt(s, d) && Unspoiled(s, LeadOf(d))
  {
    forall input | Occurs(s, Redact([s], input)) ensures exists d :: AgreesAt(s, d) && Unspoiled(s, LeadOf(d)) {
      var d := LoneSecretShown(s, input);
    }
    forall d | AgreesAt(s, d) && Unspoiled(s, LeadOf(d)) ensures exists input :: Occurs(s, Redact([s], input)) {
      SpelledAroundMarker(s, d);
    }
  }

  lemma LoneSecretShown(s: Bytes, input: Bytes) returns (d: int)
    requires s != [] && Occurs(s, Redact([s], input))
    ensures AgreesAt(s, d) && Unspoiled(s, LeadOf(d))
  {
    var at: nat :| OccursAt(s, Redact([s], input), at);
    var rest, from := ShownFromFirstToken([s], s, input, at);
    RedactUnfolds([s], rest);
    HeadOf([s], rest);
    var text := Redact([s], rest);
    if LongestMatch([s], rest) > 0 {
      forall k | 0 <= k < |s| && 0 <= k + from < |MARKER| ensures s[k] == MARKER[k + from] {
        assert text[from..from + |s|][k] == text[from + k];
      }
      return from;
    }
    assert rest[0..] == rest && s[0..] == s && rest[..0] == s[..0];
    d := ShownAroundMarker(s, rest, 0);
  }

  // -------------------------------------------- what short inputs already show

  /** More bytes than any token stands for. */
  function Width(secrets: seq<Bytes>): nat {
    MaxLen(secrets) + 1
  }

  lemma AdvanceIsBounded(secrets: seq<Bytes>, input: Bytes)
    requires input != []
    ensures Advance(secrets, input) <= Width(secrets)
  {
    LongestMatchIsSecret(secrets, input);
    var n := LongestMatch(secrets, input);
    if n > 0 {
      MaxLenIsBound(secrets, input[..n]);
    }
  }

  /** The first `n` tokens are settled by so many bytes for each; `start` is what they render. */
  lemma {:induction false} SameStart(secrets: seq<Bytes>, input: Bytes, more: Bytes, n: nat) returns (start: Bytes)
    requires |input| >= n * Width(secrets)
    ensures start <= Redact(secrets, input) && start <= Redact(secrets, input + more)
    ensures n > 0 ==> input != [] && |start| >= |Emit(secrets, input + more)| + n - 1
    decreases n
  {
    hide Redact, Emit, Advance;
    if n == 0 {
      return [];
    }
    assert n * Width(secrets) == (n - 1) * Width(secrets) + Width(secrets) && |input| >= Width(secrets);
    var a, head := Advance(secrets, input), Emit(secrets, input);
    AdvanceIsBounded(secrets, input);
    HeadIsFinal(secrets, input, more);
    RedactUnfolds(secrets, input);
    RedactUnfolds(secrets, input + more);
    assert (input + more)[a..] == input[a..] + more;
    var rest := SameStart(secrets, input[a..], more, n - 1);
    start := head + rest;
    SamePrefix(head, rest, Redact(secrets, input[a..]));
    SamePrefix(head, rest, Redact(secrets, input[a..] + more));
    if n > 1 {
      EmitsSomething(secrets, input[a..] + more);
    }
  }

  lemma SamePrefix(head: Bytes, a: Bytes, b: Bytes)
    requires a <= b
    ensures head + a <= head + b
  {}

  lemma EmitsSomething(secrets: seq<Bytes>, input: Bytes)
    requires input != []
    ensures |Emit(secrets, input)| > 0
  {}

  /** Where the output shows `s`, some rest of the input shows it from within its first token on. */
  lemma {:induction false} ShownFromFirstToken(secrets: seq<Bytes>, s: Bytes, input: Bytes, at: nat)
    returns (rest: Bytes, from: nat)
    requires s != [] && OccursAt(s, Redact(secrets, input), at)
    ensures rest != [] && from < |Emit(secrets, rest)| && OccursAt(s, Redact(secrets, rest), from)
    decreases |input|
  {
    assert input != [];
    hide Redact, Emit, Advance, OccursAt;
    RedactUnfolds(secrets, input);
    var head, tail := Emit(secrets, input), Redact(secrets, input[Advance(secrets, input)..]);
    if at < |head| {
      return input, at;
    }
    OccursPast(s, head, tail, at);
    rest, from := ShownFromFirstToken(secrets, s, input[Advance(secrets, input)..], at - |head|);
  }

  /** As many bytes as settle the first `|s|` tokens. */
  function Enough(secrets: seq<Bytes>, s: Bytes): nat {
    |s| * Width(secrets)
  }

  /**
   * For any list of secrets: some input shows `s` in the output if and only if
   * one that is short enough does, so that whether a secret can show at all is
   * settled by finitely many inputs.
   */
  lemma VisibleOnShortInputIff(secrets: seq<Bytes>, s: Bytes)
    requires s != []
    ensures (exists input :: Occurs(s, Redact(secrets, input))) <==>
            exists input :: |input| <= Enough(secrets, s) && Occurs(s, Redact(secrets, input))
  {
    hide Redact, Enough, Occurs;
    forall input | Occurs(s, Redact(secrets, input))
      ensures exists short :: |short| <= Enough(secrets, s) && Occurs(s, Redact(secrets, short))
    {
      var short := ShortInput(secrets, s, input);
    }
  }

  lemma ShortInput(secrets: seq<Bytes>, s: Bytes, input: Bytes) returns (short: Bytes)
    requires s != [] && Occurs(s, Redact(secrets, input))
    ensures |short| <= Enough(secrets, s) && Occurs(s, Redact(secrets, short))
  {
    hide Redact, Enough, OccursAt, Emit;
    var at: nat :| OccursAt(s, Redact(secrets, input), at);
    var rest, from := ShownFromFirstToken(secrets, s, input, at);
    short := rest;
    assert Occurs(s, Redact(secrets, rest));
    if |rest| > Enough(secrets, s) {
      ShownByPrefix(secrets, s, rest, from);
      short := rest[..Enough(secrets, s)];
    }
  }

  lemma ShownByPrefix(secrets: seq<Bytes>, s: Bytes, input: Bytes, at: nat)
    requires s != [] && |input| > Enough(secrets, s)
    requires at < |Emit(secrets, input)| && OccursAt(s, Redact(secrets, input), at)
    ensures Occurs(s, Redact(secrets, input[..Enough(secrets, s)]))
  {
    hide Redact, Emit;
    var bound := Enough(secrets, s);
    var short, more := input[..bound], input[bound..];
    assert input == short + more;
    var start := SameStart(secrets, short, more, |s|);
    assert Redact(secrets, short)[at..at + |s|] == start[at..at + |s|] == Redact(secrets, input)[at..at + |s|];
    assert OccursAt(s, Redact(secrets, short), at);
  }

  // ------------------------------------------------------- one step at a time

  /** Index just past the last newline, 0 if there is none. */
  function AfterLastNewline(s: Bytes): (n: nat)
    ensures n <= |s|
    ensures n > 0 ==> s[n - 1] == NEWLINE
    ensures NEWLINE !in s[n..]
  {
    if s == [] then 0
    else if s[|s| - 1] == NEWLINE then |s|
    else
      var n := AfterLastNewline(s[..|s| - 1]);
      assert s[n..] == s[..|s| - 1][n..] + [s[|s| - 1]];
      n
  }

  function MaxLen(secrets: seq<Bytes>): nat {
    if secrets == [] then 0
    else
      var rest := MaxLen(secrets[1..]);
      if |secrets[0]| > rest then |secrets[0]| else rest
  }

  lemma {:induction false} MaxLenIsBound(secrets: seq<Bytes>, s: Bytes)
    requires s in secrets
    ensures |s| <= MaxLen(secrets)
  {
    if s != secrets[0] {
      MaxLenIsBound(secrets[1..], s);
    }
  }

  /** How far a flush must get; nothing is consumed when it is not positive. */
  function FlushLimit(maxLen: nat, pending: Bytes, final: bool): (limit: int)
    ensures limit <= |pending|
  {
    if final || maxLen <= 1 then |pending|
    else
      var room := |pending| - (maxLen - 1);
      var newline := AfterLastNewline(pending);
      if newline > room then newline else room
  }

  datatype Flushed = Flushed(output: Bytes, consumed: nat)

  /** Consume whole tokens of `pending` until at least `limit` bytes are gone. */
  function Consume(secrets: seq<Bytes>, pending: Bytes, limit: int): (f: Flushed)
    requires limit <= |pending|
    ensures limit <= f.consumed <= |pending|
    decreases |pending|
  {
    if limit <= 0 then Flushed([], 0)
    else
      var n := Advance(secrets, pending);
      var f := Consume(secrets, pending[n..], limit - n);
      Flushed(Emit(secrets, pending) + f.output, n + f.consumed)
  }

  function FlushStep(secrets: seq<Bytes>, pending: Bytes, final: bool): (f: Flushed)
    ensures f.consumed <= |pending|
  {
    Consume(secrets, pending, FlushLimit(MaxLen(secrets), pending, final))
  }

  /** What has been flushed so far, and the tail still held. */
  datatype State = State(output: Bytes, pending: Bytes)

  function Step(secrets: seq<Bytes>, st: State, chunk: Bytes, final: bool): State {
    var pending := st.pending + chunk;
    var f := FlushStep(secrets, pending, final);
    State(st.output + f.output, pending[f.consumed..])
  }

  function Concat(chunks: seq<Bytes>): Bytes {
    if chunks == [] then [] else Concat(chunks[..|chunks| - 1]) + chunks[|chunks| - 1]
  }

  /** The writer after `chunks` were written in order. */
  function WriteAll(secrets: seq<Bytes>, chunks: seq<Bytes>): State {
    if chunks == [] then State([], [])
    else Step(secrets, WriteAll(secrets, chunks[..|chunks| - 1]), chunks[|chunks| - 1], false)
  }

  /** Everything flushed once the stream is closed. */
  function Stream(secrets: seq<Bytes>, chunks: seq<Bytes>): Bytes {
    Step(secrets, WriteAll(secrets, chunks), [], true).output
  }

  // ------------------------------------------------ every decision is final

  /** No secret continues past one of its own newlines. */
  ghost predicate NoInteriorNewline(secrets: seq<Bytes>) {
    forall s, k :: s in secrets && 0 <= k < |s| - 1 ==> s[k] != NEWLINE
  }

  /** Whatever follows, the longest match at the head of `tail` is already known. */
  lemma MatchIsFinal(secrets: seq<Bytes>, tail: Bytes, more: Bytes)
    requires |tail| >= MaxLen(secrets) || (NoInteriorNewline(secrets) && NEWLINE in tail)
    ensures LongestMatch(secrets, tail + more) == LongestMatch(secrets, tail)
  {
    var n, m := LongestMatch(secrets, tail), LongestMatch(secrets, tail + more);
    LongestMatchIsSecret(secrets, tail);
    LongestMatchIsSecret(secrets, tail + more);
    if n > 0 {
      LongestMatchIsLongest(secrets, tail + more, tail[..n]);
    }
    if m > 0 {
      var s := (tail + more)[..m];
      MaxLenIsBound(secrets, s);
      assert forall k :: 0 <= k < m && k < |tail| ==> s[k] == tail[k];
      assert m <= |tail|;
      assert s <= tail;
      LongestMatchIsLongest(secrets, tail, s);
    }
  }

  ghost predicate Decided(secrets: seq<Bytes>, pending: Bytes, limit: int) {
    && limit <= |pending|
    && (limit <= 0 || limit <= |pending| - MaxLen(secrets) + 1 || pending[limit - 1] == NEWLINE)
  }

  lemma {:induction false} ConsumeIsFinal(secrets: seq<Bytes>, pending: Bytes, limit: int, more: Bytes)
    requires Decided(secrets, pending, limit) && NoInteriorNewline(secrets)
    ensures var f := Consume(secrets, pending, limit);
            Redact(secrets, pending + more) == f.output + Redact(secrets, pending[f.consumed..] + more)
    decreases |pending|
  {
    hide Redact, Advance, Emit;
    if limit <= 0 {
      assert pending[0..] == pending;
    } else {
      var n := Advance(secrets, pending);
      var rest := pending[n..];
      HeadIsFinal(secrets, pending, more);
      RedactUnfolds(secrets, pending + more);
      assert (pending + more)[n..] == rest + more;
      ConsumeIsFinal(secrets, rest, limit - n, more);
      var f := Consume(secrets, rest, limit - n);
      assert rest[f.consumed..] == pending[n + f.consumed..];
      Associative(Emit(secrets, pending), f.output, Redact(secrets, rest[f.consumed..] + more));
    }
  }

  lemma HeadIsFinal(secrets: seq<Bytes>, pending: Bytes, more: Bytes)
    requires pending != []
    requires |pending| >= MaxLen(secrets) || (NoInteriorNewline(secrets) && NEWLINE in pending)
    ensures Advance(secrets, pending + more) == Advance(secrets, pending)
    ensures Emit(secrets, pending + more) == Emit(secrets, pending)
  {
    MatchIsFinal(secrets, pending, more);
  }

  lemma Associative(a: Bytes, b: Bytes, c: Bytes)
    ensures a + b + c == a + (b + c)
  {}

  lemma {:induction false} ConsumeAllIsRedact(secrets: seq<Bytes>, pending: Bytes)
    ensures Consume(secrets, pending, |pending|) == Flushed(Redact(secrets, pending), |pending|)
    decreases |pending|
  {
    hide Advance, Emit;
    if pending != [] {
      RedactUnfolds(secrets, pending);
      ConsumeAllIsRedact(secrets, pending[Advance(secrets, pending)..]);
    }
  }

  /** A closing flush redacts what is left, whatever the secrets are. */
  lemma FinalFlushIsRedact(secrets: seq<Bytes>, pending: Bytes)
    ensures FlushStep(secrets, pending, true) == Flushed(Redact(secrets, pending), |pending|)
  {
    ConsumeAllIsRedact(secrets, pending);
  }

  /** What each `Write` leaves behind is short and holds no complete line. */
  lemma HeldTailIsShort(secrets: seq<Bytes>, st: State, chunk: Bytes)
    ensures var tail := Step(secrets, st, chunk, false).pending;
            NEWLINE !in tail && (tail == [] || |tail| < MaxLen(secrets))
  {
    var pending := st.pending + chunk;
    var consumed := FlushStep(secrets, pending, false).consumed;
    var n := AfterLastNewline(pending);
    assert consumed >= n;
    assert pending[consumed..] == pending[n..][consumed - n..];
  }

  lemma StepIsFinal(secrets: seq<Bytes>, st: State, chunk: Bytes, more: Bytes)
    requires NoInteriorNewline(secrets)
    ensures var next := Step(secrets, st, chunk, false);
            st.output + Redact(secrets, st.pending + (chunk + more)) ==
            next.output + Redact(secrets, next.pending + more)
  {
    var pending := st.pending + chunk;
    var f := FlushStep(secrets, pending, false);
    Associative(st.pending, chunk, more);
    ConsumeIsFinal(secrets, pending, FlushLimit(MaxLen(secrets), pending, false), more);
    Associative(st.output, f.output, Redact(secrets, pending[f.consumed..] + more));
  }

  /**
   * After any writes, whatever may still follow: the flushed bytes and the
   * redaction of the held tail make up the redaction of the stream so far.
   */
  lemma {:induction false} FlushedPlusTail(secrets: seq<Bytes>, chunks: seq<Bytes>, more: Bytes)
    requires NoInteriorNewline(secrets)
    ensures var st := WriteAll(secrets, chunks);
            Redact(secrets, Concat(chunks) + more) == st.output + Redact(secrets, st.pending + more)
    decreases |chunks|
  {
    if chunks != [] {
      var earlier, last := chunks[..|chunks| - 1], chunks[|chunks| - 1];
      FlushedPlusTail(secrets, earlier, last + more);
      Associative(Concat(earlier), last, more);
      StepIsFinal(secrets, WriteAll(secrets, earlier), last, more);
    }
  }

  /** This split of its stream is delivered as the one-shot redaction. */
  ghost predicate Faithful(secrets: seq<Bytes>, chunks: seq<Bytes>) {
    Stream(secrets, chunks) == Redact(secrets, Concat(chunks))
  }

  ghost predicate StreamsFaithfully(secrets: seq<Bytes>) {
    forall chunks: seq<Bytes> :: Faithful(secrets, chunks)
  }

  /**
   * Every split of every stream is delivered as the one-shot redaction exactly
   * when no secret has a newline before its last byte. Secrets without any
   * newline, the only ones the entrypoint lets through, meet that.
   */
  lemma StreamingIsOneShotIff(secrets: seq<Bytes>)
    ensures StreamsFaithfully(secrets) <==> NoInteriorNewline(secrets)
  {
    if NoInteriorNewline(secrets) {
      forall chunks: seq<Bytes> ensures Faithful(secrets, chunks) {
        StreamIsOneShot(secrets, chunks);
      }
    } else {
      var s, k: nat :| s in secrets && k < |s| - 1 && s[k] == NEWLINE;
      SplitAtNewlineLeaks(secrets, s, k);
    }
  }

  lemma StreamIsOneShot(secrets: seq<Bytes>, chunks: seq<Bytes>)
    requires NoInteriorNewline(secrets)
    ensures Stream(secrets, chunks) == Redact(secrets, Concat(chunks))
  {
    var st := WriteAll(secrets, chunks);
    FlushedPlusTail(secrets, chunks, []);
    assert Concat(chunks) + [] == Concat(chunks) && st.pending + [] == st.pending;
    FinalFlushIsRedact(secrets, st.pending);
  }

  /** Cutting such a secret after its newline yields more than its one marker. */
  lemma SplitAtNewlineLeaks(secrets: seq<Bytes>, s: Bytes, k: nat)
    requires s in secrets && k < |s| - 1 && s[k] == NEWLINE
    ensures Concat([s[..k + 1], s[k + 1..]]) == s
    ensures !Faithful(secrets, [s[..k + 1], s[k + 1..]])
  {
    var first, second := s[..k + 1], s[k + 1..];
    TwoChunks(first, second);
    assert first + second == s;
    WholeSecretIsHidden(secrets, s);
    TwoWrites(secrets, first, second);
    var f, g := FlushStep(secrets, first, false), FlushStep(secrets, second, false);
    var h := FlushStep(secrets, second[g.consumed..], true);
    assert AfterLastNewline(first) == |first|;
    ConsumedOutput(secrets, first, |first|);
    ConsumedOutput(secrets, second, FlushLimit(MaxLen(secrets), second, false));
    ConsumedOutput(secrets, second[g.consumed..], |second| - g.consumed);
    NotOneMarker(f.output, g.output + h.output);
    Associative(f.output, g.output, h.output);
  }

  lemma NotOneMarker(a: Bytes, b: Bytes)
    requires |b| > 0 && (NEWLINE in a || |a| >= |MARKER|)
    ensures a + b != MARKER
  {
    if NEWLINE in a {
      assert NEWLINE in a + b;
    }
  }

  lemma TwoChunks(first: Bytes, second: Bytes)
    ensures Concat([first, second]) == first + second
  {
    assert [first, second][..1] == [first] && [first][..0] == [];
    assert Concat([first]) == [] + first == first;
  }

  /** Two writes and a close, when the first chunk ends a line. */
  lemma TwoWrites(secrets: seq<Bytes>, first: Bytes, second: Bytes)
    requires first != [] && first[|first| - 1] == NEWLINE
    ensures var f, g := FlushStep(secrets, first, false), FlushStep(secrets, second, false);
            var h := FlushStep(secrets, second[g.consumed..], true);
            Stream(secrets, [first, second]) == f.output + g.output + h.output
  {
    var f, g := FlushStep(secrets, first, false), FlushStep(secrets, second, false);
    assert [first, second][..1] == [first] && [first][..0] == [];
    assert [] + first == first && [] + second == second;
    assert f.consumed == |first| by {
      assert AfterLastNewline(first) == |first|;
    }
    assert [] + f.output == f.output;
    assert WriteAll(secrets, [first]) == State(f.output, []);
    var rest := second[g.consumed..];
    assert rest + [] == rest;
    assert WriteAll(secrets, [first, second]) == State(f.output + g.output, rest);
  }

  /** A flush emits something, and for a newline a newline or a whole marker. */
  lemma {:induction false} ConsumedOutput(secrets: seq<Bytes>, pending: Bytes, limit: int)
    requires limit <= |pending|
    ensures var f := Consume(secrets, pending, limit);
            && (limit > 0 ==> |f.output| > 0)
            && (0 < limit && pending[limit - 1] == NEWLINE ==>
                  NEWLINE in f.output || |f.output| >= |MARKER|)
    decreases |pending|
  {
    hide LongestMatch;
    if limit > 0 {
      var n, out := Advance(secrets, pending), Emit(secrets, pending);
      assert (out == [pending[0]] && n == 1) || out == MARKER;
      ConsumedOutput(secrets, pending[n..], limit - n);
      var f := Consume(secrets, pending[n..], limit - n);
      assert forall b :: b in f.output ==> b in out + f.output;
      assert pending[0] == NEWLINE && n == 1 && out == [pending[0]] ==> (out + f.output)[0] == NEWLINE;
    }
  }

  // ------------------------------------------------------------- the writer

  ghost predicate LongestFirst(secrets: seq<Bytes>) {
    forall i, j :: 0 <= i < j < |secrets| ==> |secrets[i]| >= |secrets[j]|
  }

  /** The same secrets, whatever their order and however often each is listed. */
  ghost predicate SameSecrets(a: seq<Bytes>, b: seq<Bytes>) {
    forall s :: s != [] ==> (s in a <==> s in b)
  }

  lemma SameSecretsSameMatch(a: seq<Bytes>, b: seq<Bytes>, input: Bytes)
    requires SameSecrets(a, b)
    ensures LongestMatch(a, input) == LongestMatch(b, input)
  {
    var n, m := LongestMatch(a, input), LongestMatch(b, input);
    LongestMatchIsSecret(a, input);
    LongestMatchIsSecret(b, input);
    if n > 0 {
      LongestMatchIsLongest(b, input, input[..n]);
    }
    if m > 0 {
      LongestMatchIsLongest(a, input, input[..m]);
    }
  }

  /** In a list sorted longest first, the first secret that matches is the longest. */
  lemma FirstMatchIsLongest(secrets: seq<Bytes>, input: Bytes, j: nat)
    requires LongestFirst(secrets) && j <= |secrets|
    requires forall i :: 0 <= i < j ==> !(secrets[i] <= input)
    requires j < |secrets| ==> secrets[j] <= input
    ensures LongestMatch(secrets, input) == if j < |secrets| then |secrets[j]| else 0
  {
    var n := LongestMatch(secrets, input);
    LongestMatchIsSecret(secrets, input);
    if n > 0 {
      var i :| 0 <= i < |secrets| && secrets[i] == input[..n];
      assert secrets[i] <= input;
      assert j <= i;
    }
    if j < |secrets| {
      LongestMatchIsLongest(secrets, input, secrets[j]);
    }
  }

  /** A scan that stands at `consumed` having emitted `output` is on its way to `Consume`. */
  ghost predicate Partway(secrets: seq<Bytes>, pending: Bytes, limit: int, output: Bytes, consumed: nat) {
    && limit <= |pending| && consumed <= |pending|
    && var f := Consume(secrets, pending[consumed..], limit - consumed);
       Consume(secrets, pending, limit) == Flushed(output + f.output, consumed + f.consumed)
  }

  lemma PartwayStarts(secrets: seq<Bytes>, pending: Bytes, limit: int)
    requires limit <= |pending|
    ensures Partway(secrets, pending, limit, [], 0)
  {
    assert pending[0..] == pending;
    var f := Consume(secrets, pending, limit);
    assert [] + f.output == f.output;
  }

  lemma PartwayEnds(secrets: seq<Bytes>, pending: Bytes, limit: int, output: Bytes, consumed: nat)
    requires Partway(secrets, pending, limit, output, consumed) && limit <= consumed
    ensures Consume(secrets, pending, limit) == Flushed(output, consumed)
  {
    assert output + [] == output;
  }

  lemma FlushedTwice(output: Bytes, out: Bytes, g: Flushed, consumed: nat, step: nat)
    ensures Flushed(output + (out + g.output), consumed + (step + g.consumed)) ==
            Flushed(output + out + g.output, consumed + step + g.consumed)
  {}

  lemma PartwayAdvances(secrets: seq<Bytes>, pending: Bytes, limit: int, output: Bytes, consumed: nat)
    requires Partway(secrets, pending, limit, output, consumed) && consumed < limit
    ensures var tail := pending[consumed..];
            Partway(secrets, pending, limit, output + Emit(secrets, tail), consumed + Advance(secrets, tail))
  {
    hide Emit, Advance;
    var tail := pending[consumed..];
    var n := Advance(secrets, tail);
    assert tail[n..] == pending[consumed + n..];
    FlushedTwice(output, Emit(secrets, tail), Consume(secrets, tail[n..], limit - consumed - n), consumed, n);
  }

  /**
   * Where the log goes: it takes some prefix of what it is given, and may fail.
   * A sound one never does. `broke` tells that it failed or took too little.
   */
  class Destination {
    const sound: bool
    var received: Bytes
    ghost var broke: bool

    constructor (sound: bool)
      ensures this.sound == sound && received == [] && !broke
    {
      this.sound := sound;
      received := [];
      broke := false;
    }

    method Write(data: Bytes) returns (written: nat, failed: bool)
      modifies this
      ensures written <= |data| && received == old(received) + data[..written]
      ensures sound ==> written == |data| && !failed
      ensures broke == (old(broke) || failed || written != |data|)
    {
      if sound {
        written, failed := |data|, false;
      } else {
        written :| 0 <= written <= |data|;
        failed := *;
      }
      received := received + data[..written];
      broke := broke || failed || written != |data|;
    }
  }

  class Writer {
    const dst: Destination
    const secrets: seq<Bytes>
    const maxLen: nat
    var pending: Bytes
    var destinationErr: bool

    /** The secrets as given, and what was flushed, delivered or not. */
    ghost const given: seq<Bytes>
    ghost var flushed: Bytes

    ghost predicate Valid()
      reads this, dst
    {
      && LongestFirst(secrets) && SameSecrets(secrets, given) && [] !in secrets
      && maxLen == MaxLen(given)
      && (destinationErr <==> dst.broke) && (dst.sound ==> !dst.broke)
      && dst.received <= flushed
      && (!dst.broke ==> dst.received == flushed)
    }

    ghost function Now(): State
      reads this
    {
      State(flushed, pending)
    }

    constructor (dst: Destination, given: seq<Bytes>)
      requires dst.received == [] && !dst.broke
      ensures Valid() && this.dst == dst && this.given == given
      ensures Now() == WriteAll(given, [])
    {
      var byteSecrets: seq<Bytes> := [];
      var longest := 0;
      for i := 0 to |given|
        invariant SameSecrets(byteSecrets, given[..i]) && [] !in byteSecrets
        invariant longest == MaxLen(given[..i])
      {
        MaxLenSnoc(given[..i], given[i]);
        assert given[..i + 1] == given[..i] + [given[i]];
        var secret := given[i];
        if secret != [] {
          byteSecrets := byteSecrets + [secret];
          if |secret| > longest {
            longest := |secret|;
          }
        }
      }
      assert given[..|given|] == given;
      var sorted := SortLongestFirst(byteSecrets);
      this.dst := dst;
      this.secrets := sorted;
      this.maxLen := longest;
      this.pending := [];
      this.destinationErr := false;
      this.given := given;
      this.flushed := [];
    }

    method Write(p: Bytes) returns (written: nat)
      requires Valid()
      modifies this, dst
      ensures Valid() && written == |p|
      ensures Now() == Step(given, old(Now()), p, false)
      ensures old(dst.broke) ==> dst.broke && dst.received == old(dst.received)
    {
      pending := pending + p;
      Flush(false);
      written := |p|;
    }

    method Close() returns (failed: bool)
      requires Valid()
      modifies this, dst
      ensures Valid() && failed == dst.broke
      ensures Now() == Step(given, old(Now()), [], true)
      ensures old(dst.broke) ==> dst.broke && dst.received == old(dst.received)
    {
      assert pending + [] == pending;
      Flush(true);
      failed := destinationErr;
    }

    method Flush(final: bool)
      requires Valid()
      modifies this, dst
      ensures Valid()
      ensures var f := FlushStep(given, old(pending), final);
              flushed == old(flushed) + f.output && pending == old(pending)[f.consumed..]
      ensures old(dst.broke) ==> dst.broke && dst.received == old(dst.received)
    {
      var limit: int := |pending|;
      if !final && maxLen > 1 {
        limit := limit - (maxLen - 1);
        var newline := AfterLastNewline(pending);
        if newline > limit {
          limit := newline;
        }
        if limit <= 0 {
          return;
        }
      }
      assert limit == FlushLimit(MaxLen(given), pending, final);
      var output, consumed := Scan(limit);
      if |output| > 0 && !destinationErr {
        var written, failed := dst.Write(output);
        if !failed && written != |output| {
          failed := true;
        }
        if failed {
          destinationErr := true;
        }
      }
      flushed := flushed + output;
      pending := pending[consumed..];
    }

    /** The replacement loop over the held bytes. */
    method Scan(limit: int) returns (output: Bytes, consumed: nat)
      requires Valid() && limit <= |pending|
      ensures Flushed(output, consumed) == Consume(given, pending, limit)
    {
      hide Partway, Consume, Emit, Advance, LongestMatch;
      output, consumed := [], 0;
      PartwayStarts(given, pending, limit);
      while consumed < limit
        invariant consumed <= |pending|
        invariant Partway(given, pending, limit, output, consumed)
        decreases |pending| - consumed
      {
        var n := MatchHere(pending[consumed..]);
        PartwayAdvances(given, pending, limit, output, consumed);
        HeadOf(given, pending[consumed..]);
        if n > 0 {
          output := output + MARKER;
          consumed := consumed + n;
        } else {
          output := output + [pending[consumed]];
          consumed := consumed + 1;
        }
      }
      PartwayEnds(given, pending, limit, output, consumed);
    }

    /** The scan over the secrets at one position; 0 when none matches there. */
    method MatchHere(tail: Bytes) returns (n: nat)
      requires Valid()
      ensures n == LongestMatch(given, tail)
    {
      var j := 0;
      while j < |secrets| && !(|tail| >= |secrets[j]| && tail[..|secrets[j]|] == secrets[j])
        invariant j <= |secrets|
        invariant forall i :: 0 <= i < j ==> !(secrets[i] <= tail)
      {
        j := j + 1;
      }
      FirstMatchIsLongest(secrets, tail, j);
      SameSecretsSameMatch(secrets, given, tail);
      n := if j < |secrets| then |secrets[j]| else 0;
    }
  }

  lemma {:induction false} MaxLenSnoc(secrets: seq<Bytes>, last: Bytes)
    ensures MaxLen(secrets + [last]) == if |last| > MaxLen(secrets) then |last| else MaxLen(secrets)
  {
    if secrets != [] {
      MaxLenSnoc(secrets[1..], last);
      assert (secrets + [last])[1..] == secrets[1..] + [last];
    }
  }

  /** The library sort, by descending length. */
  method SortLongestFirst(secrets: seq<Bytes>) returns (sorted: seq<Bytes>)
    ensures LongestFirst(sorted)
    ensures forall s :: s in sorted <==> s in secrets
  {
    sorted := [];
    for i := 0 to |secrets|
      invariant LongestFirst(sorted)
      invariant forall s :: s in sorted <==> s in secrets[..i]
    {
      var j := 0;
      while j < |sorted| && |sorted[j]| >= |secrets[i]|
        invariant j <= |sorted|
        invariant forall k :: 0 <= k < j ==> |sorted[k]| >= |secrets[i]|
      {
        j := j + 1;
      }
      ghost var before := sorted;
      sorted := sorted[..j] + [secrets[i]] + sorted[j..];
      assert before == before[..j] + before[j..];
      assert secrets[..i + 1] == secrets[..i] + [secrets[i]];
    }
    assert secrets[..|secrets|] == secrets;
  }

  /**
   * A whole run of the writer, chunk by chunk, then closed. It fails exactly
   * when the destination broke, and a sound destination gets everything.
   */
  method StreamAll(dst: Destination, given: seq<Bytes>, chunks: seq<Bytes>) returns (failed: bool)
    requires dst.received == [] && !dst.broke
    modifies dst
    ensures (failed <==> dst.broke) && (dst.sound ==> !failed)
    ensures dst.received <= Stream(given, chunks)
    ensures !failed ==> dst.received == Stream(given, chunks)
    ensures NoInteriorNewline(given) ==>
              dst.received <= Redact(given, Concat(chunks)) &&
              (!failed ==> dst.received == Redact(given, Concat(chunks)))
  {
    var w := new Writer(dst, given);
    for i := 0 to |chunks|
      invariant w.Valid() && w.dst == dst && w.given == given
      invariant fresh(w) && w.Now() == WriteAll(given, chunks[..i])
    {
      assert chunks[..i + 1][..i] == chunks[..i];
      var _ := w.Write(chunks[i]);
    }
    assert chunks[..|chunks|] == chunks;
    failed := w.Close();
    if NoInteriorNewline(given) {
      StreamIsOneShot(given, chunks);
    }
  }

  /** To a sound destination, a stream arrives as its one-shot redaction, and nothing fails. */
  method StreamToSound(given: seq<Bytes>, chunks: seq<Bytes>) returns (received: Bytes, failed: bool)
    requires NoInteriorNewline(given)
    ensures !failed && received == Redact(given, Concat(chunks))
  {
    var dst := new Destination(true);
    failed := StreamAll(dst, given, chunks);
    received := dst.received;
  }
}
