# Easemob callback demo: pre-send decision and tunnel-URL announcer

This project models, in Dafny, the two pieces of logic in the Easemob
webhook callback demo that make decisions:

- **The pre-send decision** (`src/pre_send_webhook.js`). The
  `/webhook/pre-send` handler answers the messaging platform with
  `{valid, code, payload}`. It decides from the kill switch
  `ALLOW_MESSAGE_SEND`, the message text at `payload.bodies[0].msg`, the deny-list
  validator `checkContentValidity`, and the `INSERT_TEST_EXT` / `payload.ext`
  rule that adds a `test` field. Module `PreSend` (`pre_send.dfy`) gives this
  as pure functions: `CheckContentValidity` and `Decide(cfg, body)`. The switches
  form a `Config` value. `SOURCE_CONFIG` holds them as shipped (both on).
- **The one-shot tunnel-URL announcer** (`src/scripts/boot.js`). The launcher
  echoes every stdout chunk of its child process. The first chunk that holds a
  match of `https://[a-z0-9\-]+\.trycloudflare\.com` (`REG`) also makes it print
  that match followed by `/webhook`. The `shown` flag makes this happen once
  per process. Module `Boot` (`boot.dfy`) states what the pattern means as the
  predicate `IsTunnelUrl`, and has a hand-written matcher proved sound and
  complete against it. `FirstMatch` and `FirstUrl` give the leftmost match.
  The pure function `React` gives what one chunk writes and how it leaves
  `shown`; `Replay` applies it to a sequence of chunks in order. The class
  `Announcer` holds the `shown` flag and the output log, and its method
  `OnData` handles one chunk. The class invariant `Valid()` says that the
  object's state is always `Replay` of every chunk received so far.

`wrappers.dfy` holds the `Option` type that both modules use.

The announced URL ends in `/webhook` (`src/scripts/boot.js:37`), and so does
`Boot.WEBHOOK_SUFFIX`. That is the route of the server the launcher starts:
it runs `node ./src/index.js` (`src/scripts/boot.js:12`), which serves
`POST /webhook` (`src/index.js:15`). The pre-send service is a separate
server; it prints its own local URL ending in `/webhook/pre-send`
(`src/pre_send_webhook.js:126-127`), and the launcher never announces that one.

## Model

| member | source | states |
|---|---|---|
| `PreSend.Lower` | src/pre_send_webhook.js:118 | lower-casing keeps the length and lowers each character on its own (ASCII capitals become small letters; other characters are unchanged) |
| `PreSend.IncludesIffOccurs` | src/pre_send_webhook.js:120 | `text.includes(word)` is true exactly when `word` occurs in `text` at some position |
| `PreSend.SomeWordIncludedIff` | src/pre_send_webhook.js:117-120 | the `some` over the deny-list is true exactly when some lowered word occurs somewhere in the lowered text |
| `PreSend.CheckContentValidity` | src/pre_send_webhook.js:113-121 | absent or empty content is valid; other content is valid exactly when no lowered deny word occurs in its lowered form |
| `PreSend.DenyWordsAreLowerCase` | src/pre_send_webhook.js:117 | lowering leaves each deny word unchanged, so "case-insensitive" only concerns the content |
| `PreSend.LowerKeepsOccurrence` | src/pre_send_webhook.js:118-120 | a word occurring at position i in the content still occurs there, lowered, after lowering |
| `PreSend.DeniedWordRejected` | src/pre_send_webhook.js:117-120 | content holding a deny word in any letter case is judged invalid |
| `PreSend.MessageContent` | src/pre_send_webhook.js:83 | the content is present exactly when `payload`, `bodies`, a first element and its `msg` all exist, and is that `msg`; any missing level gives absent content |
| `PreSend.Decide` | src/pre_send_webhook.js:67-105 | the code is always "HX:10000"; with the kill switch off the answer is invalid with an empty payload whatever the body; otherwise `valid` is the validator's verdict on the content; a `txt` payload carrying the content exactly, present exactly when valid and the content is non-empty, otherwise an empty payload; `test` present, holding the fixed sentinel, exactly when the ext rule is on, `payload.ext` is truthy and a text payload was produced |
| `PreSend.RejectionHasEmptyPayload` | src/pre_send_webhook.js:87-102 | a rejected message always comes back with an empty payload |
| `PreSend.AbsentContentPasses` | src/pre_send_webhook.js:83-90 | with the switch on, a body without a message (any missing path, or "") is valid with an empty payload |
| `PreSend.DeniedContentRejected` | src/pre_send_webhook.js:83-102 | with the switch on, a message holding a deny word in any case gives `{valid: false, code: "HX:10000", payload: {}}` |
| `PreSend.HelloAccepted` | src/pre_send_webhook.js:83-101 | under the shipped switches "hello" gives a valid `txt` payload with content "hello", and with `test` set exactly when `ext` is truthy |
| `PreSend.SensitiveWordRejected` | src/pre_send_webhook.js:84-102 | under the shipped switches "测试敏感词 content" is rejected with an empty payload |
| `Boot.RunEnd` | src/scripts/boot.js:19 | the run of subdomain characters `[a-z0-9-]` from k ends at the first character outside the class, or at the end of the chunk |
| `Boot.MatchLenAt` | src/scripts/boot.js:19 | a length it returns is that of a full match of the pattern starting at i |
| `Boot.MatchLenAtComplete` | src/scripts/boot.js:19 | it misses no match: every match at i is the one `MatchLenAt` returns |
| `Boot.MatchLengthUnique` | src/scripts/boot.js:19 | at most one match starts at a given position (the subdomain cannot run past '.'), so the greedy match is unambiguous |
| `Boot.FindFrom` | src/scripts/boot.js:29 | the scan from a position returns the first position with a match, having found none before it, or reports that no later position has one |
| `Boot.FirstMatch` | src/scripts/boot.js:29 | `line.match(REG)` gives the leftmost match: a match with no match at any earlier position, or none when the chunk holds no match |
| `Boot.FirstUrl` | src/scripts/boot.js:29-36 | `m[0]` exists exactly when the chunk holds a match, is a full match of the pattern, and is the substring at the leftmost match position |
| `Boot.LeadingUrlFound` | src/scripts/boot.js:29-36 | a chunk that starts with a tunnel URL yields exactly that URL |
| `Boot.UrlHasDomain` | src/scripts/boot.js:19-29 | a chunk that yields a URL contains the full ".trycloudflare.com", so a chunk without it yields nothing |
| `Boot.MatchWithinUrl` | src/scripts/boot.js:19 | inside any slice of a tunnel URL the only match is the whole URL, from its first character to its end |
| `Boot.SplitHostMissed` | src/scripts/boot.js:22-29 | any tunnel URL split into two non-empty chunks, at any point, is found in neither chunk, although the joined text yields exactly that URL: matching is per chunk |
| `Boot.EveryChunkEchoed` | src/scripts/boot.js:22-25 | over any sequence of chunks, the echoed lines are exactly the chunks, verbatim and in order, whether they match or not |
| `Boot.ShownOnceMatched` | src/scripts/boot.js:20-31 | after any sequence of chunks `shown` is set exactly when it was set before or some chunk held a match; it never goes back to false |
| `Boot.AnnouncedAtMostOnce` | src/scripts/boot.js:28-38 | over any sequence of chunks there is at most one announcement: none once `shown` is set, otherwise the match of the first chunk that holds one, followed by "/webhook", or nothing when no chunk matches |
| `Boot.SecondChunkOnlyEchoed` | src/scripts/boot.js:22-38 | after a first chunk with a match, the output is its echo, its match plus "/webhook", then only the echo of the second chunk, even if that chunk matches too |
| `Boot.AnnouncedOnlyForFirstMatch` | src/scripts/boot.js:22-38 | a first chunk that starts with any tunnel URL, whatever text follows it, followed by any second chunk gives its echo, the announcement of that URL plus "/webhook", and the echo of the second chunk only |
| `Boot.Announcer.constructor` | src/scripts/boot.js:20 | a fresh handler has `shown` false and has written nothing |
| `Boot.Announcer.OnData` | src/scripts/boot.js:22-41 | the chunk is echoed first; when `shown` was false and the chunk matches, `shown` is set and the match plus "/webhook" is announced; otherwise `shown` is unchanged and only the echo is added; the state stays the replay of all chunks received |

## Left out

- Express and body-parser setup, routing, `app.listen`, the health-check route, and the process signal and error handlers of `src/pre_send_webhook.js` (lines 132-157) are left out. They are framework and process I/O. The request body enters the model as an already-decoded `RequestBody`, and the model produces a `Decision` value, not an HTTP response.
- `highlightJson`, timestamps and all console logging are left out. They are cosmetic.
- In the announcer, the chalk banner, the colours and the newlines around the announcement are left out. `Announce(url)` records only the URL printed.
- Spawning `concurrently` and `cloudflared`, and passing on the child's exit code (`src/scripts/boot.js:6-16`, `44`), are left out. They are process I/O.
- Decoding stdout buffers into text (`buf.toString()`) is left out. Chunks enter the model as strings.
- `PreSend.Lower`: does not model the full Unicode `toLowerCase`. Only ASCII capitals are lowered. The deny words contain no letter with a case (`PreSend.DenyWordsAreLowerCase`), so this matters only for non-ASCII capitals in message content.
- `PreSend.MessageContent`: models only string `msg` values. A truthy non-string `msg` would make `toLowerCase` throw at `src/pre_send_webhook.js:118`. `payload.ext` is modelled only by its truthiness, as a boolean.
- `src/post_send_webhook.js` and `src/index.js` are not part of this model. They only send constant JSON responses and log.
