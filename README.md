# Keyword-triggered reply rule

A Dafny model of the `Action` class of the Lonabot chat bot (`src/actions/action.py`).
An action is a reply rule. It has a name, a list of keywords, an optional responder
callback, a pool of canned answers and an admin-only flag.

- **Construction** wraps every keyword in `\b…\b` and compiles it with
  `re.IGNORECASE`, keeping the keywords in order.
- **`should_trigger(user, msg)`** first applies the admin gate. An admin-only rule
  never fires for a non-admin. Otherwise the keywords are tried in order, and the
  match of the first keyword found anywhere in the message is returned.
- **`act(user, msg, match)`** has two modes. If a responder is configured, it
  forwards the responder's replies. If not, it yields one answer chosen from the pool.

Everything is in one module, `Actions` (`actions.dfy`). The rule is a class whose
fields are all `const`, so the model itself guarantees that `ShouldTrigger` and
`Act` never change the rule.

The regular-expression engine is replaced by an exact definition of what a
word-bounded, case-insensitive pattern around a *literal* keyword means:

- Position `i` of message `s` is a boundary when exactly one of `s[i-1]` and `s[i]`
  is a word character. Word characters are ASCII letters, digits and `_`, and
  positions outside the message count as non-word (`IsBoundary`).
- A pattern matches at `i` when the keyword fits there, the slice of the message
  equals the keyword under ASCII case folding, and there is a boundary at `i` and
  at `i + |keyword|` (`MatchesAt`).
- `Search` is `re.search`: it returns the leftmost such position, with the matched
  slice of the message, or None.

The responder callback is a parameter of the rule: a total function
`(User, string, Match) -> seq<Reply>`. The random choice is a nondeterministic
pick (`:|`) of some member of the pool.

`action.py` does not validate a rule's configuration, and the model keeps that:

- Construction accepts a rule with neither a responder nor an answer pool.
  An empty pool fails only when `Act` draws from it, with the error `random.choice`
  raises; the model returns `Err(EmptyPool)`.
- When both a responder and a pool are supplied, the responder wins and the pool
  is ignored.

## Model

| member | source | states |
|---|---|---|
| `Actions.Compile` | src/actions/action.py:29 | a keyword compiles to a case-insensitive, word-bounded pattern around that keyword, unchanged; what the pattern then matches is stated by the case and word-boundary lemmas below |
| `Actions.SearchFrom` | src/actions/action.py:47 | from a start position: the result is a real match at or after that position with its slice of the message, and nothing matches between; None means nothing matches at or after it |
| `Actions.Search` | src/actions/action.py:47 | `keyword.search(msg)` finds a match exactly when the pattern matches somewhere; the match lies inside the message, carries the matched slice, has a word boundary on both sides, and is the leftmost one |
| `Actions.SearchFindsLeftmost` | src/actions/action.py:47 | conversely, the first position where the pattern matches is exactly the match `Search` reports |
| `Actions.SearchIgnoresCase` | src/actions/action.py:29 | under IGNORECASE, two messages that differ only in letter case give the same search outcome at the same position |
| `Actions.KeywordCaseIrrelevant` | src/actions/action.py:29 | keywords that differ only in case (for example "HELLO" and "hello") are found at the same place in every message |
| `Actions.StandaloneWordMatches` | src/actions/action.py:29 | a keyword that starts and ends with a word character is found when it stands in the message as a word of its own |
| `Actions.EmbeddedWordDoesNotMatch` | src/actions/action.py:29 | such a keyword does not match where a word character touches it from either side, as inside a longer word |
| `Actions.FirstMatch` | src/actions/action.py:46-51 | over a list of keywords: None exactly when no keyword matches the message; otherwise it is the search result of some keyword `j`, and no earlier keyword matches |
| `Actions.FirstMatchAt` | src/actions/action.py:46-49 | a keyword that matches while every earlier keyword does not is the one whose match is reported |
| `Actions.Action.constructor` | src/actions/action.py:24-33 | `keywords` has the input's length and order, element `i` is the compiled input keyword `i`; name, responder, pool and admin flag are stored unchanged; the rule is `Valid` exactly when every keyword is literal |
| `Actions.Action.ShouldTrigger` | src/actions/action.py:43-51 | an admin-only rule returns None to a non-admin for every message; otherwise the result is the first keyword's match in registration order, which the loop proves by keeping "no earlier keyword matched" |
| `Actions.Action.Act` | src/actions/action.py:61-67 | with a responder, exactly the responder's sequence for (user, msg, match), in order and unmodified, with the pool ignored; without one, exactly one reply and it is in the pool; an empty pool is the `random.choice` error |
| `Actions.CatMatchesCapitalised` | src/actions/action.py:29 | "cat" matches "Cat!" at position 0 with matched text "Cat" |
| `Actions.CatMatchesStandalone` | src/actions/action.py:29 | "cat" matches "I have a cat" |
| `Actions.CatNotInCategory` | src/actions/action.py:29 | "cat" matches nowhere in "category" |
| `Actions.FooInBarFoo` | src/actions/action.py:47 | "foo" is found in "bar foo" at position 4 |
| `Actions.FirstKeywordWinsExample` | src/actions/action.py:46-49 | with keywords "foo", "bar" in that order, "bar foo" reports the match of "foo", not of "bar" |
| `Actions.ShutdownInShutdownNow` | src/actions/action.py:47 | "shutdown" is found at the start of "shutdown now"; the client method `AdminGatingExample` uses this to show the gate turning away a non-admin and letting an admin through |

## Left out

- General regular expressions. The source splices keywords into the pattern unescaped, so a keyword may use any regex syntax. The model gives a meaning only to literal keywords: ASCII, with none of `. ^ $ * + ? { } [ ] \ | ( )`.
- Actions.Action.ShouldTrigger: requires `Valid()`, meaning every keyword is literal, because only literal keywords have a meaning in the model. The source has no such precondition.
- Pattern compilation errors. `re.compile` rejects a malformed keyword at construction time. The model's constructor never fails; a rule with a non-literal keyword is simply not `Valid`.
- Unicode. Python's `\b`, `\w` and IGNORECASE follow Unicode for `str` patterns. The model uses ASCII only. A non-ASCII character counts as non-word and equals only itself, so the model differs from Python on messages such as "café" or ones containing the Kelvin sign, which Python folds to `k`.
- Uniformity of `random.choice`. No distribution claim can be stated; the model only says the reply is some member of the pool.
- The responder's body, its side effects and any exception it raises. It is external configuration, modelled as a total function.
- Laziness. `act` is a generator and produces items on demand; the model returns the finished sequence. In Python the empty-pool error appears when the generator is first advanced, not when `act` is called.
- The match object beyond its pattern, start position and matched text: `end()`, `span()`, `.string` and groups are not modelled.
- The `name` field is stored and nothing more; it is diagnostic only.
- The unreachable `return []` after the two branches of `act` (line 70).
- The shared mutable default `multiple_answers=[]`. Dafny sequences are values, so no aliasing exists to model.
- The dispatcher that calls `should_trigger` and `act`, and the chat transport. Neither is part of this model.
