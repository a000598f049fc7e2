/**
 * The pre-send webhook's decision logic: the deny-list content validator
 * (`checkContentValidity`) and the `{valid, code, payload}` response that the
 * `/webhook/pre-send` handler builds from it.
 */
module PreSend {
  import opened Wrappers

  /** The response code every decision carries, whatever its outcome. */
  const RESPONSE_CODE: string := "HX:10000"

  /** The only message type the handler produces. */
  const TEXT_MSG_TYPE: string := "txt"

  /** The fixed value written to `payload.test` when the ext rule fires. */
  const TEST_SENTINEL: string := "尝试插入一个ext"

  /** The deny-list: content holding any of these (case-insensitively) is rejected. */
  const DENY_WORDS: seq<string> := ["敏感词1", "敏感词2", "测试敏感词"]

  /** The two process-wide switches of the service. */
  datatype Config = Config(allowMessageSend: bool, insertTestExt: bool)

  /** The switches as the service ships them. */
  const SOURCE_CONFIG: Config := Config(true, true)

  // ---------------------------------------------------------------------
  // The inbound request body, as far as the handler reads it.
  // Every level that optional chaining (`?.`) may find missing is an Option.

  /** One element of `payload.bodies`; only `msg` is read. */
  datatype MessageBody = MessageBody(msg: Option<string>)

  /** `payload`: its `bodies` array and whether `payload.ext` is truthy. */
  datatype RequestPayload = RequestPayload(bodies: Option<seq<MessageBody>>, ext: bool)

  /** The decoded request body; `None` when it has no `payload` object. */
  datatype RequestBody = RequestBody(payload: Option<RequestPayload>)

  // ---------------------------------------------------------------------
  // The response.

  /** The response `payload`; an absent field is `None`, so `{}` is all `None`. */
  datatype Payload = Payload(msgType: Option<string>, msgContent: Option<string>, test: Option<string>)

  const EMPTY_PAYLOAD: Payload := Payload(None, None, None)

  datatype Decision = Decision(valid: bool, code: string, payload: Payload)

  // ---------------------------------------------------------------------
  // Lower-casing and substring search.

  /** `toLowerCase` on one character, restricted to the ASCII letters. */
  function LowerChar(c: char): char {
    if 'A' <= c <= 'Z' then (c as int + 32) as char else c
  }

  /** `toLowerCase` on a string: the same length, each character lowered. */
  function Lower(s: string): (r: string)
    ensures |r| == |s|
    ensures forall i :: 0 <= i < |s| ==> r[i] == LowerChar(s[i])
  {
    if s == [] then [] else [LowerChar(s[0])] + Lower(s[1..])
  }

  /** `word` occurs in `text` starting at position `i`. */
  predicate OccursAt(text: string, word: string, i: nat) {
    i + |word| <= |text| && text[i..i + |word|] == word
  }

  /** `text.includes(word)`: `word` is a prefix of `text` or of one of its suffixes. */
  function Includes(text: string, word: string): bool {
    word <= text || (text != [] && Includes(text[1..], word))
  }

  /** Dropping the first character of `text` moves every occurrence one place left. */
  lemma OccursShift(text: string, word: string, i: nat)
    requires text != []
    ensures OccursAt(text[1..], word, i) <==> OccursAt(text, word, i + 1)
  {
  }

  /** `Includes` finds exactly the occurrences `OccursAt` describes. */
  lemma {:induction false} IncludesIffOccurs(text: string, word: string)
    ensures Includes(text, word) <==> exists i: nat :: OccursAt(text, word, i)
  {
    if word <= text {
      assert OccursAt(text, word, 0);
    } else if text == [] {
      assert forall i: nat :: !OccursAt(text, word, i);
    } else {
      IncludesIffOccurs(text[1..], word);
      if Includes(text[1..], word) {
        var i: nat :| OccursAt(text[1..], word, i);
        OccursShift(text, word, i);
      }
      if i: nat :| OccursAt(text, word, i) {
        assert i != 0;
        OccursShift(text, word, i - 1);
      }
    }
  }

  /** `words.some(w => text.includes(w.toLowerCase()))`. */
  function SomeWordIncluded(words: seq<string>, text: string): bool {
    words != [] && (Includes(text, Lower(words[0])) || SomeWordIncluded(words[1..], text))
  }

  /** Some word of `words`, lowered, occurs somewhere in `text`. */
  ghost predicate ContainsAnyOf(words: seq<string>, text: string) {
    exists k: nat, i: nat :: k < |words| && OccursAt(text, Lower(words[k]), i)
  }

  /** `SomeWordIncluded` holds exactly when some lowered word occurs somewhere in `text`. */
  lemma {:induction false} SomeWordIncludedIff(words: seq<string>, text: string)
    ensures SomeWordIncluded(words, text) <==> ContainsAnyOf(words, text)
  {
    if words != [] {
      IncludesIffOccurs(text, Lower(words[0]));
      SomeWordIncludedIff(words[1..], text);
      if SomeWordIncluded(words[1..], text) {
        var k: nat, i: nat :| k < |words[1..]| && OccursAt(text, Lower(words[1..][k]), i);
        assert OccursAt(text, Lower(words[k + 1]), i);
        assert ContainsAnyOf(words, text);
      }
      if ContainsAnyOf(words, text) {
        var k: nat, i: nat :| k < |words| && OccursAt(text, Lower(words[k]), i);
        if k == 0 {
          assert Includes(text, Lower(words[0]));
        } else {
          assert words[1..][k - 1] == words[k];
          assert OccursAt(text, Lower(words[1..][k - 1]), i);
          assert ContainsAnyOf(words[1..], text);
        }
      }
    }
  }

  // ---------------------------------------------------------------------
  // The content validator.

  /** JavaScript truthiness of the extracted content: present and not "". */
  predicate Truthy(content: Option<string>) {
    content.Some? && content.value != ""
  }

  /**
   * `checkContentValidity`: absent or empty content is valid; other content
   * is valid exactly when no lowered deny word occurs in its lowered form.
   */
  function CheckContentValidity(content: Option<string>): (ok: bool)
    ensures !Truthy(content) ==> ok
    ensures Truthy(content) ==> (ok <==> !ContainsAnyOf(DENY_WORDS, Lower(content.value)))
  {
    if !Truthy(content) then true
    else
      var lowered := Lower(content.value);
      SomeWordIncludedIff(DENY_WORDS, lowered);
      !SomeWordIncluded(DENY_WORDS, lowered)
  }

  /** The deny words hold no upper-case letter, so lowering leaves them as they are. */
  lemma DenyWordsAreLowerCase()
    ensures forall k :: 0 <= k < |DENY_WORDS| ==> Lower(DENY_WORDS[k]) == DENY_WORDS[k]
  {
  }

  /** Lower-casing keeps an occurrence where it is, lowered. */
  lemma LowerKeepsOccurrence(text: string, word: string, i: nat)
    requires OccursAt(text, word, i)
    ensures OccursAt(Lower(text), Lower(word), i)
  {
  }

  /**
   * Content holding a deny word in any letter case (a `word` whose lowered
   * form is that deny word's) is judged invalid.
   */
  lemma DeniedWordRejected(content: string, word: string, k: nat, i: nat)
    requires k < |DENY_WORDS|
    requires OccursAt(content, word, i)
    requires Lower(word) == Lower(DENY_WORDS[k])
    ensures !CheckContentValidity(Some(content))
  {
    LowerKeepsOccurrence(content, word, i);
    assert content != "" by {
      DenyWordsAreLowerCase();
      assert |word| == |DENY_WORDS[k]| > 0;
    }
  }

  // ---------------------------------------------------------------------
  // The decision builder.

  /** `req.body?.payload?.bodies?.[0]?.msg`: any missing level yields absent content. */
  function MessageContent(body: RequestBody): (content: Option<string>)
    ensures content.Some? <==>
              body.payload.Some? && body.payload.value.bodies.Some? &&
              |body.payload.value.bodies.value| > 0 && body.payload.value.bodies.value[0].msg.Some?
    ensures content.Some? ==> content == body.payload.value.bodies.value[0].msg
  {
    match body.payload
    case None => None
    case Some(p) =>
      match p.bodies
      case None => None
      case Some(bodies) => if |bodies| == 0 then None else bodies[0].msg
  }

  /** `req.body?.payload?.ext` is truthy. */
  predicate ExtTruthy(body: RequestBody) {
    body.payload.Some? && body.payload.value.ext
  }

  /**
   * The `/webhook/pre-send` response for a request body under `cfg`.
   */
  function Decide(cfg: Config, body: RequestBody): (d: Decision)
    // the code never varies
    ensures d.code == RESPONSE_CODE
    // the kill switch rejects everything with an empty payload
    ensures !cfg.allowMessageSend ==> d == Decision(false, RESPONSE_CODE, EMPTY_PAYLOAD)
    // otherwise the validator decides
    ensures cfg.allowMessageSend ==> d.valid == CheckContentValidity(MessageContent(body))
    // a text payload exactly when valid and the content is non-empty, carrying that content
    ensures d.payload.msgType.Some? <==> d.valid && Truthy(MessageContent(body))
    ensures d.payload.msgType.Some? ==>
              d.payload.msgType == Some(TEXT_MSG_TYPE) && d.payload.msgContent == MessageContent(body)
    ensures d.payload.msgType.None? ==> d.payload == EMPTY_PAYLOAD
    // the test field only with the ext rule on, ext truthy and a text payload
    ensures d.payload.test.Some? <==> cfg.insertTestExt && ExtTruthy(body) && d.payload.msgType.Some?
    ensures d.payload.test.Some? ==> d.payload.test.value == TEST_SENTINEL
  {
    if !cfg.allowMessageSend then
      Decision(cfg.allowMessageSend, RESPONSE_CODE, EMPTY_PAYLOAD)
    else
      var content := MessageContent(body);
      var valid := CheckContentValidity(content);
      var payload :=
        if valid && Truthy(content) then
          Payload(Some(TEXT_MSG_TYPE), content,
                  if cfg.insertTestExt && ExtTruthy(body) then Some(TEST_SENTINEL) else None)
        else EMPTY_PAYLOAD;
      Decision(valid, RESPONSE_CODE, payload)
  }

  /** A rejected message always comes back with an empty payload. */
  lemma RejectionHasEmptyPayload(cfg: Config, body: RequestBody)
    ensures !Decide(cfg, body).valid ==> Decide(cfg, body).payload == EMPTY_PAYLOAD
  {
  }

  /** A body without a message (any missing path, or "") passes with an empty payload. */
  lemma AbsentContentPasses(cfg: Config, body: RequestBody)
    requires cfg.allowMessageSend
    requires !Truthy(MessageContent(body))
    ensures Decide(cfg, body) == Decision(true, RESPONSE_CODE, EMPTY_PAYLOAD)
  {
  }

  /** With the switch on, a message holding a deny word in any case is rejected. */
  lemma DeniedContentRejected(cfg: Config, body: RequestBody, word: string, k: nat, i: nat)
    requires cfg.allowMessageSend
    requires MessageContent(body).Some?
    requires k < |DENY_WORDS|
    requires OccursAt(MessageContent(body).value, word, i)
    requires Lower(word) == Lower(DENY_WORDS[k])
    ensures Decide(cfg, body) == Decision(false, RESPONSE_CODE, EMPTY_PAYLOAD)
  {
    DeniedWordRejected(MessageContent(body).value, word, k, i);
  }

  /** A request body carrying one message `msg` and the given `ext` flag. */
  function SingleMessage(msg: string, ext: bool): RequestBody {
    RequestBody(Some(RequestPayload(Some([MessageBody(Some(msg))]), ext)))
  }

  /** Under the shipped switches, "hello" passes as a text payload, without `test` when ext is off. */
  lemma HelloAccepted()
    ensures Decide(SOURCE_CONFIG, SingleMessage("hello", false)) ==
            Decision(true, RESPONSE_CODE, Payload(Some(TEXT_MSG_TYPE), Some("hello"), None))
    ensures Decide(SOURCE_CONFIG, SingleMessage("hello", true)) ==
            Decision(true, RESPONSE_CODE, Payload(Some(TEXT_MSG_TYPE), Some("hello"), Some(TEST_SENTINEL)))
  {
  }

  /** Under the shipped switches, a message containing "测试敏感词" is rejected with an empty payload. */
  lemma SensitiveWordRejected()
    ensures Decide(SOURCE_CONFIG, SingleMessage("测试敏感词 content", false)) ==
            Decision(false, RESPONSE_CODE, EMPTY_PAYLOAD)
  {
  }
}
