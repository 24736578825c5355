# Atrio Neuronal chat page: a Dafny model of its logic

The chat page (`src/app/page.tsx`) simulates an "AI companion". A person
types into a text area and presses "Emitir". The message joins an orbiting
list of cards, and after a short delay a canned reply from the companion
("Nexus") joins as well. Three pieces of that page are modelled here:

- the **reply synthesizer** (`synthesizeResponse`). It normalises the
  prompt into a *catalyst*: trimmed, whitespace runs collapsed, 140
  characters at most, lower-cased. It then cuts the catalyst into at most
  six *fragments*, abbreviating long words. The reply sets one fragment into
  one of three carrier sentences (a *hybrid*), followed by one of five seed
  phrases. A blank prompt gets a bare seed phrase;
- the **timeline** (the `useMemo` over `messages`): the last four messages as
  `"Humana: …"` / `"Nexus: …"` lines, each clipped to 42 characters plus `…`;
- the **conversation state** (`messages`, `input`, `isThinking`) with the
  two transitions of `handleSend`: the submit, and the reply its timer
  delivers. Also the index arithmetic that picks a card's vibe and orbit
  preset.

Files and modules:

- `text.dfy`, module `Text`. The JavaScript string operations the page
  uses: `trim`, `replace(/\s+/g, " ")`, `slice`, `toLowerCase`,
  `split(" ")` and `filter(Boolean)`. It also proves what they keep: the
  visible, non-whitespace characters, and the `split`/`join` round trip.
- `messages.dfy`, module `Messages`. The message record, the vibe labels,
  the six orbit presets, the opening conversation, and JavaScript's
  truncating `%`.
- `synthesizer.dfy`, module `Synthesizer`. The reply generator and its
  properties.
- `timeline.dfy`, module `Timeline`. The four-line excerpt and how it slides
  when a message is appended.
- `conversation.dfy`, module `Conversation`. Class `Chat` with the page's
  three state variables and the `Submit` / `DeliverReply` transitions, each
  of which ends in a state update (`Post`, `Receive`).

Non-deterministic and environmental inputs are parameters:

- every `Math.random()` index pick: `seedPick < 5`, `hybridPick < 3`, and a
  vibe index in `0 .. 3`;
- the `crypto.randomUUID()` id and the formatted clock time, both as opaque
  strings.

Details of the page's code the model keeps:

- an abbreviated token keeps the characters from index 4 up to, but
  excluding, `6 + index % 3` (`slice` has an exclusive end). So the
  abbreviation is 7 to 9 characters long;
- words are split on single spaces after whitespace runs were collapsed, not
  on arbitrary whitespace. The catalyst can end in a space when the
  140-character cut lands after one; `filter(Boolean)` drops the empty piece
  this leaves;
- sending is not blocked while a reply is pending. The button is never
  disabled, so several replies can be outstanding, and the first one
  delivered clears `isThinking`.

## Model

| member | source | states |
|---|---|---|
| Text.IsSpace | src/app/page.tsx:108-109 | the characters `\s` matches and `trim` removes include space, tab, line feed and carriage return, and no printable ASCII character other than the space |
| Text.TrimStart | src/app/page.tsx:108 | the result is a suffix of the input that does not start with whitespace |
| Text.TrimStartDropsSpaces | src/app/page.tsx:108 | every character dropped from the front is whitespace |
| Text.TrimEnd | src/app/page.tsx:108 | the result is a prefix of the input that does not end with whitespace |
| Text.TrimEndDropsSpaces | src/app/page.tsx:108 | every character dropped from the end is whitespace |
| Text.Trim | src/app/page.tsx:108 | `trim` never lengthens the string |
| Text.TrimStartAppend | src/app/page.tsx:108 | the leading whitespace of `a + b` all comes from `a` unless `a` is whitespace only |
| Text.TrimShape | src/app/page.tsx:108 | `trim` gives "" exactly for a blank string; any other result starts and ends with non-whitespace |
| Text.TrimKeepsContent | src/app/page.tsx:108 | trimming drops no visible character |
| Text.TrimIdempotent | src/app/page.tsx:182-203 | trimming the already-trimmed text the reply timer passes on changes nothing |
| Text.Collapse | src/app/page.tsx:109 | `replace(/\s+/g, " ")` never lengthens the string and gives "" exactly for "" |
| Text.CollapseFirst | src/app/page.tsx:109 | the result starts with a space when the input starts with whitespace, and with the input's first character otherwise |
| Text.CollapseOnlySpaces | src/app/page.tsx:109 | the only whitespace left is the plain space |
| Text.CollapseNoDoubleSpace | src/app/page.tsx:109 | no two spaces are adjacent after collapsing |
| Text.CollapseShape | src/app/page.tsx:109 | the three facts together: starts with whitespace iff the input does, only single spaces, never two in a row |
| Text.CollapseCons | src/app/page.tsx:109 | a visible character in front is kept as it is |
| Text.CollapseBlankAppend | src/app/page.tsx:109 | a whitespace-only string collapses to one space, also in front of a string that does not start with whitespace |
| Text.CollapseAppend | src/app/page.tsx:109 | collapsing `a + b` is collapsing `a` and `b` separately whenever the cut does not fall inside a whitespace run: every run becomes one space in its own place |
| Text.CollapseRun | src/app/page.tsx:109 | a non-empty whitespace run before a visible character (or at the end) becomes exactly one space |
| Text.CollapseKeepsContent | src/app/page.tsx:109 | collapsing drops and reorders no visible character |
| Text.Prefix | src/app/page.tsx:110 | `slice(0, n)` is a prefix of length `min(|s|, n)` |
| Text.PrefixKeepsContent | src/app/page.tsx:110 | the cut keeps a prefix of the visible characters |
| Text.Lower | src/app/page.tsx:111 | the lower-cased character is never upper-case, an upper-case letter moves 32 code points on, and every other character is left alone |
| Text.LowerKeepsSpaces | src/app/page.tsx:111 | lower-casing keeps whitespace whitespace and non-whitespace visible, and the space the space |
| Text.LowerCase | src/app/page.tsx:111 | `toLowerCase` keeps the length and lower-cases every position |
| Text.LowerCaseKeepsContent | src/app/page.tsx:111 | lower-casing commutes with dropping whitespace |
| Text.Split | src/app/page.tsx:118 | `split(" ")` gives at least one piece, and a non-empty first piece for a string not starting with the separator |
| Text.SplitPieces | src/app/page.tsx:118 | no piece contains the separator |
| Text.SplitAtSep | src/app/page.tsx:118 | `split` of `a`, the separator and `b` is the pieces of `a` followed by the pieces of `b` |
| Text.SplitNoSep | src/app/page.tsx:118 | a string without the separator is one piece |
| Text.SplitJoin | src/app/page.tsx:118 | joining the pieces of `split` with the separator gives the string back |
| Text.NonEmpty | src/app/page.tsx:119 | `filter(Boolean)` never adds elements and keeps a non-empty first piece first |
| Text.NonEmptyMembers | src/app/page.tsx:119 | a string is in the result of `filter(Boolean)` if and only if it is in the input and not empty |
| Text.NonEmptyKeeps | src/app/page.tsx:119 | every kept piece is non-empty and taken from the input; an input without empty pieces is kept whole |
| Text.NonEmptySingle | src/app/page.tsx:119 | one string is kept exactly when it is not empty |
| Text.NonEmptyAppend | src/app/page.tsx:119 | `filter(Boolean)` of `a + b` is that of `a` followed by that of `b`: every non-empty piece is kept, in order; with NonEmptySingle this fixes the result for every input |
| Synthesizer.Catalyst | src/app/page.tsx:107-111 | the catalyst is never longer than the prompt nor than 140 characters |
| Synthesizer.CatalystShape | src/app/page.tsx:107-111 | the catalyst is at most 140 characters; it is empty iff the prompt is blank; it never starts with whitespace; its only whitespace is single, non-adjacent spaces |
| Synthesizer.CatalystKeepsContent | src/app/page.tsx:107-111 | the catalyst's visible characters are a prefix of the prompt's, lower-cased, and all of them when the prompt fits in 140 characters |
| Synthesizer.Tokens | src/app/page.tsx:117-119 | a catalyst starting with a non-space has at least one word |
| Synthesizer.TokensShape | src/app/page.tsx:117-119 | each word is a non-empty piece of the split, with no space |
| Synthesizer.TokensAtSpace | src/app/page.tsx:117-119 | the words of `a`, a space and `b` are the words of `a` followed by those of `b` |
| Synthesizer.TokensOfWord | src/app/page.tsx:117-119 | a string without a space is one word, or none when it is empty |
| Synthesizer.TokensOfCatalyst | src/app/page.tsx:117-119 | every character of a catalyst's word is a character of the catalyst and is not whitespace |
| Synthesizer.Abbreviate | src/app/page.tsx:121-125 | a token of up to 6 characters is kept as it is |
| Synthesizer.AbbreviateShape | src/app/page.tsx:121-125 | a longer token becomes its 4-character prefix, `·`, and its characters from 4 below `min(len, 6 + index % 3)`, 7 to 9 characters in all; every character is `·` or the token's |
| Synthesizer.Fragments | src/app/page.tsx:117-125 | there are `min(6, words)` fragments |
| Synthesizer.FragmentsFromTokens | src/app/page.tsx:117-125 | fragment `i` is word `i` abbreviated with index `i`, non-empty and without a space |
| Synthesizer.FragmentsOfPrompt | src/app/page.tsx:117-125 | a prompt's fragments contain no whitespace at all, and a prompt that is not blank has between 1 and 6 of them |
| Synthesizer.Filler | src/app/page.tsx:128-130 | `fragments[h] ?? fallback`: the fragment when it exists, else `ideas` / `impulsos` / `emociones` |
| Synthesizer.Hybrid | src/app/page.tsx:127-131 | a filled carrier is at least as long as its opening and closing together |
| Synthesizer.HybridShape | src/app/page.tsx:127-131 | a filled carrier starts with its opening and ends with its closing, whatever fills the slot |
| Synthesizer.Synthesize | src/app/page.tsx:98-136 | the reply is never empty |
| Synthesizer.SynthesizeEndsWithSeed | src/app/page.tsx:113-135 | whatever the prompt, the reply ends with the picked seed phrase |
| Synthesizer.SynthesizeBlank | src/app/page.tsx:113-115 | a blank prompt gets the picked seed phrase verbatim, which no hybrid-plus-seed reply equals |
| Synthesizer.SynthesizeNonBlank | src/app/page.tsx:117-135 | any other prompt has at least one fragment and gets opening `h`, the fragment or fallback, closing `h`, a space and seed `k`; the first carrier always uses a fragment; the reply is no bare seed phrase |
| Synthesizer.SynthesizeIsSeedIff | src/app/page.tsx:113-135 | the reply is a bare seed phrase exactly when the prompt is blank |
| Synthesizer.TableSizes | src/app/page.tsx:99-105 | five seed phrases and three carriers and fallbacks; the seed phrases are 75 to 100 characters long and the carrier endings at least 40 |
| Timeline.Excerpt | src/app/page.tsx:176 | content of at most 42 characters is kept; longer content becomes its first 42 characters plus `…` |
| Timeline.Descriptor | src/app/page.tsx:175 | the two role labels are at least 5 characters and differ in their first letter, `H` for the person |
| Timeline.Entry | src/app/page.tsx:175-177 | a timeline line is 7 to 51 characters long |
| Timeline.EntryLabel | src/app/page.tsx:175-177 | the line is `"Humana: "` plus the excerpt for the person and `"Nexus: "` plus the excerpt for the companion, and its first letter tells the roles apart |
| Timeline.Recent | src/app/page.tsx:173-179 | the timeline has `min(4, n)` lines |
| Timeline.RecentEntries | src/app/page.tsx:173-179 | line `i` of the timeline is the entry of message `n - len + i`, in order |
| Timeline.LastWindow | src/app/page.tsx:174 | `slice(-4)` is the suffix of length `min(4, n)` |
| Timeline.RecentAfterAppend | src/app/page.tsx:173-193 | appending a message slides the timeline: its entry joins at the end and the oldest of four leaves |
| Messages.JsRem | src/app/page.tsx:278 | JavaScript's `%` lies strictly between `-b` and `b`, takes the sign of `a`, agrees with the mathematical remainder on non-negative numbers, and is `a` less `b` times the quotient truncated toward zero, which fixes its value |
| Messages.VibeSlot | src/app/page.tsx:278 | `vibeIndex % 4` is a drawable vibe for a non-negative index and is the index itself for a stored one |
| Messages.VibeSlotPeriodic | src/app/page.tsx:278 | vibes repeat with period 4 |
| Messages.OrbitFor | src/app/page.tsx:139 | a card's preset is one of the six in the table, the card's own for the first six |
| Messages.OrbitPeriodic | src/app/page.tsx:139 | presets repeat with period 6 |
| Conversation.AllVibesAppend | src/app/page.tsx:186-206 | appending a message with a drawable vibe keeps every stored vibe drawable |
| Conversation.Chat.constructor | src/app/page.tsx:152-154 | the page starts with the three opening messages, an empty input and no reply pending |
| Conversation.Chat.SetInput | src/app/page.tsx:358 | typing replaces the input and nothing else |
| Conversation.Chat.Submit | src/app/page.tsx:181-195 | a blank input changes nothing; otherwise exactly one `usuario` message with the trimmed text is appended, the input becomes "" and thinking starts; the text handed to the reply is never blank; stored vibes stay drawable |
| Conversation.Chat.Post | src/app/page.tsx:192-194 | the message is appended after the unchanged earlier ones, the input becomes "" and thinking starts; stored vibes stay drawable |
| Conversation.Chat.DeliverReply | src/app/page.tsx:199-209 | exactly one `nexus` message carrying the synthesised reply is appended, thinking stops, the input is untouched; stored vibes stay drawable |
| Conversation.Chat.Receive | src/app/page.tsx:207-208 | the reply is appended after the unchanged earlier messages, thinking stops and the input is untouched; stored vibes stay drawable |
| Conversation.SendAndReply | src/app/page.tsx:181-211 | a send followed by its reply adds exactly two messages after the unchanged earlier ones: the trimmed text, then the synthesised reply to that trimmed text, each stamped with its own clock reading |
| Conversation.SendBlank | src/app/page.tsx:182-183 | sending blank text leaves the messages, the input and the thinking flag as they were |

## Left out

- `computeOrbit`'s placement (src/app/page.tsx:140-148) is not modelled:
  trigonometry, the depth factor and the scale are floating-point values
  formatted into CSS. Only the preset choice `index % 6` is modelled.
- The spectrum animation (src/app/page.tsx:155-171) is not modelled. It is
  floating-point noise driven by `setInterval`, `Date.now()` and
  `Math.random()`. Its initial values come from `Math.random()` alone, so
  they start in [0, 1), not in the [0.15, 1] range the ticks keep.
- `formatTimestamp` (src/app/page.tsx:90-96) is a locale-dependent library
  call. The timestamp is an opaque string parameter.
- `crypto.randomUUID()` is a foreign call; ids are string parameters.
- `Math.random()` picks are index parameters; the reply's 1000–2200 ms
  delay is not modelled.
- Conversation.Chat.DeliverReply: the `setTimeout` scheduling is not
  modelled. The reply is a separate method call that may come at any time
  and in any order relative to other sends. Nothing ties a call to an
  earlier `Submit`, so the model allows more orders than the page can
  produce.
- Text.Lower: lower-cases only Basic Latin and Latin-1 letters. Other
  scripts and length-changing mappings such as `İ` are left unchanged.
- Lengths are counted in Unicode scalar values, not in the UTF-16 code units
  JavaScript counts. So `slice(0, 140)`, `length > 6` and `length > 42`
  differ from the page for characters outside the Basic Multilingual Plane.
- The vibes' colour tokens (`accent`, `glow`, `border`) are not modelled;
  only their labels are.
- All rendering, animation and CSS (src/app/page.tsx:213-380) is not
  modelled, and neither is `src/app/layout.tsx` (metadata, fonts, root
  markup).
