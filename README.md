# Event announcement front end: HTML escaping and e-mail validation

This project models the two string functions of the event-announcement web
front end (`Event-Announcement-System/Frontend/script.js`):

- `escapeHTML` turns event titles, dates and descriptions into text that is
  safe to splice into HTML. A global replace with the pattern `[&<>'"]`
  hands each matched character to a callback. The callback looks the
  character up in a five-entry table and falls back to the character itself.
  Module `HtmlEscape` (`html_escape.dfy`) models it as `Escape`, a
  character-by-character recursion over `string`. The lookup table is the
  map `Entities`, and `Replacement` is the callback with its `|| tag`
  fallback. The contract of `EscapeChar` shows that this fallback never
  fires, because every character the pattern matches has a non-empty entry.
  The decoder `Unescape` and the invariant `Safe` are the partners against
  which the escaper is proved.
- `validateEmail` gates the subscription form. It lower-cases the address
  and tests it against `^[^\s@]+@[^\s@]+\.[^\s@]+$`. Module
  `EmailValidation` (`email_validation.dfy`) models the pattern as the
  automaton a matcher runs over it: `Phase`, `Step`, and `Run`, a
  left-to-right scan. `WellFormed` states the pattern's meaning directly:
  - no whitespace;
  - exactly one `@`;
  - a non-empty part before the `@`;
  - a `.` after the `@` that is neither the first nor the last character of
    the domain.

  `Matches` is proved equal to `WellFormed` through one acceptance lemma per
  automaton phase. `\s` is the explicit set of ECMAScript WhiteSpace and
  LineTerminator code points (`IsSpace`).

Both functions are pure: they have no state and no loops, so the model is
made of functions and lemmas only.

## Model

| member | source | states |
|---|---|---|
| `HtmlEscape.EscapeChar` | Event-Announcement-System/Frontend/script.js:121-128 | `&`, `<`, `>`, `'` and `"` become `&amp;`, `&lt;`, `&gt;`, `&#39;` and `&quot;`; every other character is copied unchanged; the fallback to the matched character itself is never taken |
| `HtmlEscape.Escape` | Event-Announcement-System/Frontend/script.js:120-130 | the global replace never makes the string shorter |
| `HtmlEscape.EscapeSingleton` | Event-Announcement-System/Frontend/script.js:121-128 | escaping a one-character string gives that character's replacement |
| `HtmlEscape.EscapeConcat` | Event-Announcement-System/Frontend/script.js:121-122 | escaping distributes over concatenation, and the empty string escapes to itself |
| `HtmlEscape.EscapeSplitAt` | Event-Announcement-System/Frontend/script.js:121-122 | the replacement of the character at index k sits between the escapes of what comes before and after it, in order |
| `HtmlEscape.EscapeIsSafe` | Event-Announcement-System/Frontend/script.js:121-127 | the output holds no `<`, `>`, `'` or `"`, and every `&` in it begins one of the five entities |
| `HtmlEscape.SafeEntity` | Event-Announcement-System/Frontend/script.js:123-127 | each of the five table entries is itself safe: a single leading `&` and no markup character |
| `HtmlEscape.UnescapeEscape` | Event-Announcement-System/Frontend/script.js:123-127 | decoding the five entities gives back the original string (round trip) |
| `HtmlEscape.EscapeInjective` | Event-Announcement-System/Frontend/script.js:123-127 | two strings with the same escape are equal |
| `HtmlEscape.EscapeLength` | Event-Announcement-System/Frontend/script.js:121-127 | the output is exactly as long as the input if and only if the input has none of the five characters, and is then the input itself |
| `HtmlEscape.EscapeTwiceIff` | Event-Announcement-System/Frontend/script.js:121-127 | escaping twice equals escaping once if and only if the input has none of the five characters |
| `HtmlEscape.EscapeNotIdempotent` | Event-Announcement-System/Frontend/script.js:123 | `&` escapes to `&amp;`, and escaping that again gives `&amp;amp;` |
| `EmailValidation.Matches` | Event-Announcement-System/Frontend/script.js:116 | the pattern accepts a string if and only if it has no whitespace, exactly one `@`, a non-empty part before it, and a `.` after it at neither the first nor the last position of the domain |
| `EmailValidation.ValidateEmail` | Event-Announcement-System/Frontend/script.js:115-118 | testing the lower-cased address gives the same verdict as testing the address itself, which is `WellFormed` |
| `EmailValidation.StartAccepts` | Event-Announcement-System/Frontend/script.js:116 | the automaton accepts exactly the strings split by an `@` at a positive index into a `[^\s@]+` prefix and a domain matching `[^\s@]+\.[^\s@]+` |
| `EmailValidation.LocalAccepts` | Event-Announcement-System/Frontend/script.js:116 | inside the local part, the rest is accepted exactly when it splits at an `@` into class characters and a matching domain |
| `EmailValidation.AfterAtAccepts` | Event-Announcement-System/Frontend/script.js:116 | after the `@`, the rest is accepted exactly when it is all `[^\s@]` and has a `.` at neither its first nor its last position |
| `EmailValidation.DomainAccepts` | Event-Announcement-System/Frontend/script.js:116 | inside the domain, the rest is accepted exactly when it is all `[^\s@]` and has a `.` before its last character |
| `EmailValidation.AfterDotAccepts` | Event-Announcement-System/Frontend/script.js:116 | after the `\.`, the rest is accepted exactly when it is a non-empty run of `[^\s@]` |
| `EmailValidation.TldAccepts` | Event-Announcement-System/Frontend/script.js:116 | in the last part, the rest is accepted exactly when every character is in `[^\s@]` |
| `EmailValidation.RunReject` | Event-Announcement-System/Frontend/script.js:116 | once the match has failed, no further input can make it succeed |
| `EmailValidation.WellFormedIff` | Event-Announcement-System/Frontend/script.js:116 | the split form of the pattern is equivalent to the four conditions of `WellFormed` |
| `EmailValidation.MapKeepsRun` | Event-Announcement-System/Frontend/script.js:116-117 | a case mapping that fixes whitespace, `@` and `.` (and keeps every other character out of those classes) leaves the automaton's run unchanged |
| `EmailValidation.LowerKeepsClasses` | Event-Announcement-System/Frontend/script.js:117 | lower-casing fixes whitespace, `@` and `.`, and maps every other character to such characters |
| `EmailValidation.CaseBlind` | Event-Announcement-System/Frontend/script.js:116-117 | the verdict is the same for an address and for any class-keeping case mapping of it, lower-casing included |
| `EmailValidation.RejectsMalformed` | Event-Announcement-System/Frontend/script.js:116 | a string with whitespace, with no `@`, or with two or more `@` is rejected |
| `EmailValidation.Examples` | Event-Announcement-System/Frontend/script.js:116 | `a@b.c` and `a@b..c` are accepted; `a@.b`, `a@b.` and `A B@c.d` are rejected |

## Left out

- `loadEvents` (script.js:10-41) and `setupForms` (script.js:43-113): DOM manipulation, `fetch` calls, JSON parsing of HTTP responses and event listeners. They are user-interface and network I/O with no logic to state beyond the two calls modelled here.
- The endpoint constants `API_GATEWAY_INVOKE_URL` and `EVENTS_FILE_URL` (script.js:2-3): deployment configuration.
- `String(email)` (script.js:117) coerces non-string values to strings. The model takes a string. `escapeHTML` applied to a non-string throws, and that is not modelled either.
- LowerChar: lower-cases ASCII capitals only. Unicode case tables are not modelled. `CaseBlind` shows that the verdict holds for every case mapping that fixes whitespace, `@` and `.` and keeps all other characters out of those classes, so the full mapping gives the same answer whenever it has that property. JavaScript's lower-casing is not a per-character map, because its final-sigma rule depends on context (a capital sigma becomes the final form at the end of a word and the ordinary form elsewhere). It is therefore not of the form `MapChars(f, s)`, and `CaseBlind` does not cover it literally. Both sigma forms are characters other than whitespace, `@` and `.`, so each mapped piece is still a non-empty run of such characters, which `RunPlain` shows moves the automaton as one character does.
- Characters are Unicode scalar values, whereas JavaScript strings are UTF-16 code units. Both halves of a surrogate pair fall outside `\s`, `@`, `.` and the five escaped characters, so both functions treat a pair as they treat one such scalar. A JavaScript string may also hold a lone surrogate, which a Dafny `char` cannot represent, so such strings are outside the model. Both functions treat a lone surrogate like any other character that is neither special nor whitespace, `@` or `.`.
- The repository's CSV ingestion pipeline (`Serverless-CSV Data-Pipeline/Process-Code.py` row filter and `Serverless-CSV Data-Pipeline/ETL_Script.py` batch transformer) is not part of this model.
