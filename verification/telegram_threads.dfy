/**
 * External thread ids of Telegram conversations: printed when an update is
 * normalised, parsed again when a reply is sent.
 */
module TelegramThreads {
  import opened Wrappers
  import opened Decimal

  const MAX_SAFE_INTEGER := 9007199254740991

  const THREAD_MARK := ":thread:"

  datatype Target = Target(chatId: string, messageThreadId: Option<nat>)

  /** A chat id that is a non-zero safe integer. */
  predicate ValidChatId(chatId: int) {
    chatId != 0 && -MAX_SAFE_INTEGER <= chatId <= MAX_SAFE_INTEGER
  }

  /** The `external_thread_id` of a chat, or of one thread in it. */
  function ExternalThreadId(chatId: int, messageThreadId: Option<int>): string {
    match messageThreadId
    case None => Text(chatId)
    case Some(thread) => Text(chatId) + THREAD_MARK + Text(thread)
  }

  function MessageIdentityScope(externalThreadId: string): string {
    "telegram-thread:" + externalThreadId
  }

  /** The longest run of digits at the head of `s`. */
  function DigitRun(s: string): (n: nat)
    ensures n <= |s| && AllDigits(s[..n]) && (n < |s| ==> !IsDigit(s[n]))
  {
    if s == "" || !IsDigit(s[0]) then 0
    else
      var n := DigitRun(s[1..]);
      assert s[..n + 1] == [s[0]] + s[1..][..n];
      n + 1
  }

  /** `/^(-?\d+)(?::thread:(\d+))?$/`, matched from the left. */
  function ParseThreadTarget(id: string): Result<Target, string> {
    var sign := if id != "" && id[0] == '-' then 1 else 0;
    var digits := DigitRun(id[sign..]);
    var chatId, rest := id[..sign + digits], id[sign + digits..];
    if digits == 0 then Err("telegram_conversation_invalid")
    else if rest == "" then Ok(Target(chatId, None))
    else if !(THREAD_MARK <= rest) then Err("telegram_conversation_invalid")
    else
      var thread := rest[|THREAD_MARK|..];
      if thread == "" || DigitRun(thread) != |thread| then Err("telegram_conversation_invalid")
      else
        assert thread[..|thread|] == thread;
        Ok(Target(chatId, Some(Value(thread))))
  }

  predicate IsChatText(s: string) {
    AllDigits(if s != "" && s[0] == '-' then s[1..] else s) && s != "" && s != "-"
  }

  /** The ids the pattern matches, stated as a language. */
  ghost predicate Matches(id: string, chat: string, thread: Option<string>) {
    && IsChatText(chat)
    && match thread
       case None => id == chat
       case Some(t) => t != "" && AllDigits(t) && id == chat + THREAD_MARK + t
  }

  lemma {:induction false} DigitRunOf(digits: string, rest: string)
    requires AllDigits(digits) && (rest != "" ==> !IsDigit(rest[0]))
    ensures DigitRun(digits + rest) == |digits|
  {
    if digits == "" {
      assert digits + rest == rest;
    } else {
      assert (digits + rest)[1..] == digits[1..] + rest;
      DigitRunOf(digits[1..], rest);
    }
  }

  lemma ChatSplits(chat: string, rest: string)
    requires IsChatText(chat) && (rest != "" ==> !IsDigit(rest[0]))
    ensures var id := chat + rest;
            var sign := if id[0] == '-' then 1 else 0;
            var digits := DigitRun(id[sign..]);
            digits > 0 && id[..sign + digits] == chat && id[sign + digits..] == rest
  {
    var id := chat + rest;
    assert id[0] == chat[0];
    var sign := if chat[0] == '-' then 1 else 0;
    assert id[sign..] == chat[sign..] + rest;
    assert chat[0..] == chat;
    DigitRunOf(chat[sign..], rest);
  }

  /** Everything in the language is parsed, to the chat text verbatim and the thread's value. */
  lemma MatchParses(id: string, chat: string, thread: Option<string>)
    requires Matches(id, chat, thread)
    ensures ParseThreadTarget(id) ==
            Ok(Target(chat, if thread.Some? then Some(Value(thread.value)) else None))
  {
    var rest := if thread.Some? then THREAD_MARK + thread.value else "";
    assert id == chat + rest;
    ChatSplits(chat, rest);
    if thread.Some? {
      assert THREAD_MARK <= rest && rest[|THREAD_MARK|..] == thread.value;
      DigitRunOf(thread.value, "");
      assert thread.value + "" == thread.value;
    }
  }

  /** Whatever parses is in the language, so the parse is determined by the id. */
  lemma ParseMatches(id: string) returns (thread: Option<string>)
    requires ParseThreadTarget(id).Ok?
    ensures Matches(id, ParseThreadTarget(id).value.chatId, thread)
    ensures thread.Some? <==> ParseThreadTarget(id).value.messageThreadId.Some?
    ensures thread.Some? ==> Some(Value(thread.value)) == ParseThreadTarget(id).value.messageThreadId
  {
    var sign := if id != "" && id[0] == '-' then 1 else 0;
    var digits := DigitRun(id[sign..]);
    var chatId, rest := id[..sign + digits], id[sign + digits..];
    assert chatId[sign..] == id[sign..][..digits];
    assert chatId[0] == id[0];
    assert id == chatId + rest;
    if rest == "" {
      thread := None;
    } else {
      var t := rest[|THREAD_MARK|..];
      assert rest == THREAD_MARK + t;
      assert t[..|t|] == t;
      thread := Some(t);
    }
  }

  lemma TextIsChatText(chatId: int)
    ensures IsChatText(Text(chatId))
  {
    var d := Digits(if chatId < 0 then -chatId else chatId);
    assert IsDigit(d[0]) && IsDigit(d[|d| - 1]);
    if chatId < 0 {
      assert Text(chatId)[1..] == d && |Text(chatId)| > 1;
    }
  }

  /** Parsing a printed id gives back the chat and the thread it was printed from. */
  lemma ParseOfPrinted(chatId: int, messageThreadId: Option<nat>)
    ensures ParseThreadTarget(ExternalThreadId(chatId, messageThreadId)) ==
            Ok(Target(Text(chatId), messageThreadId))
  {
    TextIsChatText(chatId);
    match messageThreadId
    case None => MatchParses(Text(chatId), Text(chatId), None);
    case Some(thread) =>
      ValueOfDigits(thread);
      MatchParses(ExternalThreadId(chatId, messageThreadId), Text(chatId), Some(Digits(thread)));
  }

  /** Different chats or threads never share a thread id or a message identity scope. */
  lemma ThreadIdsAreDistinct(a: int, s: Option<nat>, b: int, t: Option<nat>)
    requires a != b || s != t
    ensures ExternalThreadId(a, s) != ExternalThreadId(b, t)
    ensures MessageIdentityScope(ExternalThreadId(a, s)) != MessageIdentityScope(ExternalThreadId(b, t))
  {
    var x, y := ExternalThreadId(a, s), ExternalThreadId(b, t);
    ParseOfPrinted(a, s);
    ParseOfPrinted(b, t);
    if x == y {
      TextInjective(a, b);
    }
    assert MessageIdentityScope(x)[16..] == x && MessageIdentityScope(y)[16..] == y;
  }

  /** Printing a parsed id gives it back exactly when its thread has no leading zero. */
  lemma PrintOfParsedIff(id: string, thread: Option<string>)
    requires ParseThreadTarget(id).Ok? && Matches(id, ParseThreadTarget(id).value.chatId, thread)
    ensures var t := ParseThreadTarget(id).value;
            (t.chatId + (if t.messageThreadId.Some? then THREAD_MARK + Digits(t.messageThreadId.value) else "") == id)
            <==> (thread.Some? ==> Canonical(thread.value))
  {
    hide ParseThreadTarget, Digits, Value;
    var chat := ParseThreadTarget(id).value.chatId;
    MatchParses(id, chat, thread);
    if thread.Some? {
      var printed := Digits(Value(thread.value));
      DigitsAreCanonical(Value(thread.value));
      if Canonical(thread.value) {
        DigitsOfValue(thread.value);
      }
      var head := chat + THREAD_MARK;
      assert chat + (THREAD_MARK + printed) == head + printed && id == head + thread.value;
      assert (head + printed)[|head|..] == printed && (head + thread.value)[|head|..] == thread.value;
    } else {
      assert chat + "" == chat;
    }
  }
}
