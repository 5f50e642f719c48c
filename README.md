# amlbot: a verified model of the two Telegram handlers

The repository holds two small Telegram bots for anti-money-laundering checks
of Ethereum/BSC wallets.

- `bot.py` answers a message holding one address. It strips the text and checks
  the address format: the text must start with `0x` and be 42 characters long.
  It then asks the Bitquery GraphQL API about the address. The reply is a
  connection error, a "clean" message, or up to two report lines: the contract
  type, then the risk annotations joined with `", "`.
- `test.py` answers a message holding many addresses, one per line. It keeps
  the stripped, non-blank lines that pass the same format check. It then builds
  a dictionary from each lower-cased address to a reason drawn at random from
  `REASONS` and a source drawn at random from `SOURCES`.

The model has four modules:

- `Text` (`text.dfy`): the Python string operations the handlers use.
  `str.strip()` uses the full `str.isspace()` character set. `str.split` takes
  a one-character separator. `sep.join` is modelled as written, and
  `str.lower()` covers ASCII letters only. The file proves `Strip` is unique
  and idempotent, and that `Split` and `Join` are inverses.
- `Address` (`address.dfy`): the format predicate shared by both handlers.
- `Bot` (`bot.dfy`, modelling `bot.py`): `analyze_address` and
  `handle_message`. The network call becomes a `lookup` parameter that
  returns a `ProviderResponse`, which is either an exception or the
  provider's address list. The composer is a method that appends to a `seq`
  accumulator, and it is proved equal to the specification function
  `ReplyFor`.
- `Wallets` (`wallets.dfy`, modelling `test.py`): `handle_wallets` up to the
  JSON rendering. The loop over the candidates is a method with a `map`
  accumulator. Its invariant ties the accumulator to the specification
  function `Blocklist`. A Python `dict` also remembers the order in which its
  keys were first inserted, and `json.dumps` prints them in that order. The
  method therefore also keeps that order as a `seq`, tied to the
  specification function `KeyOrder`. Each `random.choice` pair becomes a
  parameter `pick`, where `pick(i)` is the pair of draws for the `i`-th
  candidate. `pick` is required to draw from the two lists.

`REASONS` has seven elements, not eight. `test.py` has no comma between the
literals on lines 21 and 22, so Python concatenates them into the single
string `"Участие в схеме ПонциTornado Cash"`. The model keeps the list as
written, and `Wallets.ListSizes` states the consequence.

The model keeps these behaviours of the code as they are:

- No hexadecimal check is made on the 40 characters after `0x`.
- The `0x` test is case-sensitive.
- The address is not normalised before the provider lookup.
- Keys are lower-cased only in the wallet-list handler.

## Model

| member | source | states |
|---|---|---|
| `Text.IsSpace` | bot.py:74 | the character set `str.strip()` removes, that is Python's `str.isspace()`; what stripping does with it is stated by `Text.Strip`, `Text.StripFramed` and `Text.StripUnique` |
| `Text.Strip` | bot.py:74 | the stripped text neither starts nor ends with whitespace and is no longer than the input |
| `Text.StripFramed` | bot.py:74 | the stripped text is a contiguous piece of the input with only whitespace on either side |
| `Text.StripUnique` | bot.py:74 | any piece of the input that has only whitespace around it and has no whitespace at either end is exactly `Strip` of the input |
| `Text.StripAvoids` | test.py:43 | stripping never brings in a character: one absent from a line is absent from its stripped form |
| `Text.StripIdempotent` | test.py:43 | stripping an already stripped line changes nothing |
| `Text.Split` | test.py:43 | `text.split('\n')` gives at least one piece and no piece contains the separator; `Text.JoinSplit` and `Text.SplitJoin` make it the inverse of `Join` |
| `Text.Join` | bot.py:91-93 | `sep.join(parts)`; its facts are stated by `Text.JoinPlaces`, `Text.JoinAvoids`, `Text.JoinSplit` and `Text.SplitJoin` |
| `Text.JoinSuffix` | bot.py:91 | the join read from the offset of the `i`-th part onwards is the join of the parts from `i` on |
| `Text.JoinPlaces` | bot.py:91 | `sep.join(parts)` puts each part unchanged, in its original order, at its offset, with exactly `sep` between neighbours and nothing after the last part |
| `Text.JoinSplit` | test.py:43 | joining the pieces of `s.split(c)` with `c` gives back `s` |
| `Text.SplitJoin` | bot.py:93 | splitting a `c`-join of `c`-free parts on `c` gives back the parts |
| `Text.Lower` | test.py:49 | lower-casing keeps the length, leaves no ASCII capital letter, and changes only ASCII capitals (each to its lower-case letter) |
| `Text.LowerIdempotent` | test.py:49 | a lower-cased string is unchanged by lower-casing again |
| `Address.IsValidAddress` | bot.py:76 | `startswith("0x") and len == 42`, the same test as test.py:48; its facts are stated by `Address.ValidIff`, `Address.UpperPrefixRejected`, `Address.NoHexCheck`, `Address.Examples` and `Address.LowerKeepsValid` |
| `Address.ValidIff` | bot.py:76 | an address is accepted iff it has length 42 and starts with `'0'`, `'x'`; nothing else is checked |
| `Address.UpperPrefixRejected` | bot.py:76 | a string starting with `0X` is always rejected |
| `Address.NoHexCheck` | test.py:48 | `0x` followed by any 40 characters is accepted, hex digits or not |
| `Address.Examples` | bot.py:69-76 | the example address of the start message is accepted and `0x123` is rejected |
| `Address.LowerKeepsValid` | test.py:48-49 | lower-casing an accepted address gives an accepted address that lower-casing fixes |
| `Bot.AnalyzeAddress` | bot.py:52-62 | a record is produced iff the call returned a non-empty address list, and it is the first one; every exception yields no record |
| `Bot.ProviderFailureReported` | bot.py:52-85 | the reply is the connection error iff the provider raised or returned an empty list |
| `Bot.ReplyCases` | bot.py:82-93 | a missing record gives the connection error and nothing else does; the reply is "clean" iff there is neither contract nor annotation; otherwise it is the report lines joined with `"\n"` |
| `Bot.ContractLineFirst` | bot.py:87-89 | at most two lines; a contract line is present iff `smartContract` is set, and then it is the first line with the contract type after its label |
| `Bot.RisksLineLast` | bot.py:90-91 | a risks line is present iff there are annotations, and then it is the last line: the label followed by the annotations joined with `", "` |
| `Bot.RisksInOrder` | bot.py:91 | the `k`-th annotation appears unchanged in the risks line at the offset after the label and the `k` earlier annotations |
| `Bot.ReportRoundTrip` | bot.py:93 | when no field contains a line break, the report text splits on `"\n"` back into exactly the report lines |
| `Bot.ReportLines` | bot.py:87-91 | the list `response` of report lines; its facts are stated by `Bot.ContractLineFirst`, `Bot.RisksLineLast` and `Bot.RisksInOrder` |
| `Bot.ReplyFor` | bot.py:82-93 | the reply to a looked-up address; its facts are stated by `Bot.ReplyCases`, `Bot.ProviderFailureReported` and `Bot.ReportRoundTrip` |
| `Bot.ComposeReply` | bot.py:82-93 | the reply built by conditional appends to `response` is `ReplyFor` of the lookup result |
| `Bot.HandleMessage` | bot.py:73-93 | a lookup happens iff the stripped text passes the format check, and then with exactly the stripped text; the reply is the invalid-format message iff the check fails, and otherwise the composed reply for what the lookup returned |
| `Wallets.REASONS` | test.py:14-23 | the reasons list as written, with the two uncomma'd literals merged into one element; its facts are stated by `Wallets.ListSizes` |
| `Wallets.SOURCES` | test.py:26-34 | the sources list as written; its facts are stated by `Wallets.ListSizes` |
| `Wallets.DrawsFromLists` | test.py:50-51 | every draw of `pick` is an element `random.choice` could return: a reason from `REASONS` and a source from `SOURCES`; used by `Wallets.EntriesFromLists` and `Wallets.HandleWallets` |
| `Wallets.ListSizes` | test.py:14-34 | `REASONS` has 7 elements, the last being the two merged phrases, and does not contain `"Tornado Cash"`; `SOURCES` has 7 elements |
| `Wallets.NonBlank` | test.py:43 | the candidates are no more than the lines, and none is empty |
| `Wallets.NonBlankMembers` | test.py:43 | a string is a candidate iff it is non-empty and is the stripped form of some line |
| `Wallets.NonBlankAppend` | test.py:43 | filtering distributes over concatenation, so the candidates keep the order of the lines |
| `Wallets.Candidates` | test.py:43 | the list comprehension over the lines of the message; its facts are stated by `Wallets.NonBlank`, `Wallets.NonBlankMembers`, `Wallets.NonBlankAppend` and `Wallets.CandidatesClean` |
| `Wallets.CandidatesClean` | test.py:43 | every candidate is non-empty, already stripped and free of line breaks |
| `Wallets.Accepted` | test.py:47-48 | the accepted candidates are those candidates that pass the format check, and there are no more of them than candidates |
| `Wallets.AcceptedAppend` | test.py:47-48 | filtering distributes over concatenation, so the accepted candidates keep the order of the candidates |
| `Wallets.Blocklist` | test.py:46-52 | the dictionary after the loop; its facts are stated by `Wallets.BlocklistKeys`, `Wallets.KeysCanonical`, `Wallets.LastOccurrenceWins`, `Wallets.EntriesFromLists` and `Wallets.BlocklistSize` |
| `Wallets.BlocklistKeys` | test.py:46-52 | the dictionary's keys are exactly the lower-cased accepted candidates |
| `Wallets.KeysCanonical` | test.py:48-49 | every key passes the format check (42 characters, starting `0x`) and is already lower-case |
| `Wallets.LastOccurrenceWins` | test.py:47-52 | the entry of a key is the draw made for the last accepted candidate with that lower-cased form; earlier spellings in any letter case are overwritten |
| `Wallets.EntriesFromLists` | test.py:50-51 | every entry's reason is in `REASONS` and its source is in `SOURCES` |
| `Wallets.BlocklistSize` | test.py:43-52 | number of keys ≤ number of accepted candidates ≤ number of candidates |
| `Wallets.KeyOrder` | test.py:46-52 | the order of the dictionary's keys; its facts are stated by the four lemmas below |
| `Wallets.KeyOrderKeys` | test.py:46-52 | the ordered keys are exactly the dictionary's keys, with no repetition, so there are as many of them as entries |
| `Wallets.KeyOrderMembers` | test.py:47-49 | a key is in the order iff some accepted candidate lower-cases to it |
| `Wallets.KeyOrderPrefix` | test.py:47-52 | later candidates only append keys: the order after a prefix of the candidates is a prefix of the final order |
| `Wallets.FirstSpellingPlacesKey` | test.py:47-52 | a key sits right after the keys of the candidates before its first accepted spelling; later spellings do not move it |
| `Wallets.BuildBlocklist` | test.py:46-52 | the loop that inserts or overwrites one lower-cased key per accepted candidate yields exactly `Blocklist` of the candidates, and the key order, where a new key goes last and an overwritten one stays, is exactly `KeyOrder` (loop invariants: both are those of the prefix seen, and the order holds exactly the map's keys) |
| `Wallets.HandleWallets` | test.py:36-52 | the result is exactly `Blocklist` of the candidate lines, and its key order exactly `KeyOrder` of them; its keys are the lower-cased accepted candidates, each canonical; every entry is drawn from the two lists; the size bounds hold; the order lists every key, once |

## Left out

- The Telegram transport is not modelled: application building, handler registration, polling, `reply_text` and `edit_text`. This includes the interim "querying" message that `bot.py` sends before the lookup and later edits.
- The Bitquery GraphQL query, its transport, the timeouts and the async session are network I/O. They are represented only by the `ProviderResponse` they yield. The queried `balance` field is never read by the reply, so it is omitted from `AddressInfo`.
- A `smartContract` object whose `contractType` is null would print as `None` in Python. The model takes the contract type to be a string.
- Configuration loading (`load_dotenv`, environment variables) and logging are side effects with no bearing on replies.
- `random.choice` is modelled only as "some element of the list", through the `pick` parameter. The model says nothing about the distribution.
- The JSON pretty-printing, the HTML `<pre>` wrapping and the catch-all error reply of `handle_wallets` are presentation.
- `Text.Lower`: Python's `str.lower()` also lower-cases non-ASCII letters, but the model changes only `A`–`Z`. Because there is no hex check, a candidate with non-ASCII letters can pass the format check. Its key in the model can then differ from Python's. Python's `str.lower()` can also make a string longer: `'\u0130'` (İ) lower-cases to two code points. A Python key can then be longer than 42 characters, so `Wallets.KeysCanonical` and `Address.LowerKeepsValid` hold for the ASCII model only.
- The fixed reply texts (invalid format, connection error, clean) are the constructors of `Bot.Reply`, not their Russian strings. The two report-line labels are kept as the literal strings.
