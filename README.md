# Client-side field validation of the Moyee Android app, in Dafny

This project models the validation engine that the app's registration and
login screens use to check free-text input. It also models the four rule sets
built on that engine: id, password, nickname and name.

The engine (`util/Validation.kt`) wraps a value, a display name, inclusive
length bounds and a regular expression. It offers three checks: not-empty,
size-in-range and whole-string pattern match. Each check returns its receiver
or throws `IllegalArgumentException` with a message. `execute` runs a block of
checks. It returns `Success` when nothing throws and
`NotAvailable(message)` on the first throw.

Each rule set (`domain/repository/ValidationRepositoryImpl.kt`) runs the same
block in the same order: not-empty, then size, then pattern.

| rule set | length | characters | pattern-failure message |
|---|---|---|---|
| id | 5..15 | A-Z, a-z, 0-9 | the empty string |
| password | 5..15 | A-Z, a-z, 0-9 | the password message |
| nickname | 1..10 | A-Z, a-z, 0-9, ㄱ-ㅎ, 가-힣 | the nickname message |
| name | 2..5 | ㄱ-ㅎ, 가-힣 | the name message |

Files:

- `Utf16.dfy`: a Kotlin `String` as a sequence of UTF-16 code units, since
  `String.length` counts code units. It also gives the UTF-16 encoding of
  Unicode text, so that statements about text outside the Basic Multilingual
  Plane can be made.
- `Pattern.dfy`: the one regular-expression shape the rules use,
  `^[class]{min,max}$`. `Greedy` models how the bounded repetition consumes
  input, and `Matches` is proved equal to the declarative reading: between
  `min` and `max` code units, all in the class.
- `Validation.dfy`: the engine. Throwing is an `Outcome` value, `Returned` or
  `Threw`. An `execute` block is the list of checks it calls. `RunBlock` and
  `Execute` are proved against a declarative statement: `Success` exactly when
  every check accepts; otherwise the message of the first rejecting check.
- `ValidationRepository.dfy`: the four rule sets. Each has its acceptance set
  as a per-code-unit predicate and a full case-by-case outcome lemma.

Messages are abstract: `Blank(name)`, `Size(name, min, max)` and
`Custom(text)`. The blank and size texts come from localized resources. Only
the caller-supplied pattern messages are literal text in the source, and the
model keeps them as written.

A `Context` value stands for the injected Android `Context`. It holds the four
display names that the value-name resources resolve to.

Three behaviours of the code worth knowing:

- A `NotAvailable` result can carry an empty message: the id rule passes
  `""` as its pattern message (`IdBadCharHasEmptyMessage`).
- The not-empty check tests the raw value (`isNotEmpty`), so whitespace is
  not blank. The size check or the pattern check then rejects it, since no
  class contains whitespace (`SpacesNeverAccepted`).
- The password pattern message asks for special characters, but the pattern
  rejects them (`PasswordRejectsSpecialCharacters`).

## Model

| member | source | states |
|---|---|---|
| Utf16.EncodeChar | app/src/main/java/com/moyee/android/util/Validation.kt:25 | A character of the Basic Multilingual Plane is one code unit of `length` and never a surrogate. Any other character is a high/low surrogate pair (two units) that decodes back to it. |
| Utf16.EncodeBmp | app/src/main/java/com/moyee/android/util/Validation.kt:25 | For text made only of Basic Multilingual Plane characters, `length` equals the number of characters and each code unit is its character. |
| Utf16.EncodeSupplementary | app/src/main/java/com/moyee/android/util/Validation.kt:25 | Text holding a character outside the Basic Multilingual Plane becomes a string that contains a surrogate code unit. |
| Pattern.Greedy | app/src/main/java/com/moyee/android/util/Validation.kt:41 | The greedy repetition `[cls]{0,max}` takes at most `max` units, all in the class, and stops early only at the end of the input or at a unit outside the class. |
| Pattern.Matches | app/src/main/java/com/moyee/android/util/Validation.kt:41 | `regex.matches(value)` for `^[cls]{min,max}$` holds exactly when the value has `min..max` code units and every one is in the class. |
| Pattern.SurrogateNeverMatches | app/src/main/java/com/moyee/android/util/Validation.kt:41 | A class without surrogates never matches a string containing one. |
| Validation.CheckOrThrows | app/src/main/java/com/moyee/android/util/Validation.kt:44-45 | Returns the same receiver exactly when the condition holds. Otherwise it throws an `IllegalArgumentException` carrying exactly the message it was given. |
| Validation.CheckNotEmpty | app/src/main/java/com/moyee/android/util/Validation.kt:27-29 | Returns the same receiver exactly when the value is non-empty. Otherwise it throws with the blank message for the value name. |
| Validation.CheckInvalidSize | app/src/main/java/com/moyee/android/util/Validation.kt:31-38 | Returns the same receiver exactly when `minSize <= length <= maxSize`, both bounds inclusive. Otherwise it throws with the size message for the name and both bounds. |
| Validation.CheckInvalid | app/src/main/java/com/moyee/android/util/Validation.kt:40-41 | Returns the same receiver exactly when the whole value matches the pattern, that is, the pattern's length bounds hold and every unit is in its class. Otherwise it throws with exactly the caller's message, which may be empty. |
| Validation.RunBlock | app/src/main/java/com/moyee/android/util/Validation.kt:68-70 | A block of checks returns the receiver exactly when every check accepts. Otherwise it throws the first rejecting check's message. Every throw carries a message. |
| Validation.Execute | app/src/main/java/com/moyee/android/util/Validation.kt:67-74 | `Success` exactly when every check of the block accepts. Otherwise `NotAvailable` with the message of the first rejecting check; the fallback for a missing message never applies. |
| Validation.GetErrorMessageOrNull | app/src/main/java/com/moyee/android/util/Validation.kt:60-61 | null (`None`) exactly for `Success`; for `NotAvailable`, its stored message. |
| Validation.FirstFailureWins | app/src/main/java/com/moyee/android/util/Validation.kt:67-74 | When check `k` is the first to reject, `execute` yields `NotAvailable` with check `k`'s message, and `getErrorMessageOrNull` returns that message. |
| Validation.LaterChecksIgnored | app/src/main/java/com/moyee/android/util/Validation.kt:67-74 | Checks after the first rejecting one are not evaluated: replacing them by any other checks leaves the result unchanged. |
| Validation.StandardBlockOutcome | app/src/main/java/com/moyee/android/domain/repository/ValidationRepositoryImpl.kt:19-23 | Not-empty, size, pattern: an empty value gets the blank message even though it also fails the size check. An out-of-bounds value gets the size message, a pattern failure gets the custom message, and anything else gets `Success`. |
| ValidationRepository.AlphanumericClassMembers | app/src/main/java/com/moyee/android/domain/repository/ValidationRepositoryImpl.kt:18 | `[A-Za-z\d]` contains exactly the ASCII letters and ASCII digits. |
| ValidationRepository.NicknameClassMembers | app/src/main/java/com/moyee/android/domain/repository/ValidationRepositoryImpl.kt:46 | `[A-Za-zㄱ-ㅎ가-힣\d]` contains exactly the ASCII letters and digits, the Hangul consonants U+3131..U+314E and the Hangul syllables U+AC00..U+D7A3. |
| ValidationRepository.HangulClassMembers | app/src/main/java/com/moyee/android/domain/repository/ValidationRepositoryImpl.kt:60 | `[ㄱ-ㅎ가-힣]` contains exactly the two Hangul ranges. |
| ValidationRepository.IsIdAvailable | app/src/main/java/com/moyee/android/domain/repository/ValidationRepositoryImpl.kt:11-23 | `Success` exactly when the id has 5..15 units, each an ASCII letter or digit. |
| ValidationRepository.IsPasswordAvailable | app/src/main/java/com/moyee/android/domain/repository/ValidationRepositoryImpl.kt:25-37 | `Success` exactly when the password has 5..15 units, each an ASCII letter or digit. |
| ValidationRepository.IsNicknameAvailable | app/src/main/java/com/moyee/android/domain/repository/ValidationRepositoryImpl.kt:39-51 | `Success` exactly when the nickname has 1..10 units, each an ASCII letter, an ASCII digit, a Hangul consonant or a Hangul syllable. |
| ValidationRepository.IsNameAvailable | app/src/main/java/com/moyee/android/domain/repository/ValidationRepositoryImpl.kt:53-65 | `Success` exactly when the name has 2..5 units, each a Hangul consonant or a Hangul syllable. |
| ValidationRepository.IdOutcome | app/src/main/java/com/moyee/android/domain/repository/ValidationRepositoryImpl.kt:11-23 | The id result in every case: blank for empty input, size outside 5..15, `Custom("")` when some unit is not a letter or digit, otherwise `Success`. |
| ValidationRepository.PasswordOutcome | app/src/main/java/com/moyee/android/domain/repository/ValidationRepositoryImpl.kt:25-37 | The password result in every case: blank, size outside 5..15, the password message when some unit is not a letter or digit, otherwise `Success`. |
| ValidationRepository.NicknameOutcome | app/src/main/java/com/moyee/android/domain/repository/ValidationRepositoryImpl.kt:39-51 | The nickname result in every case: blank, size outside 1..10, the nickname message when some unit is outside the nickname class, otherwise `Success`. |
| ValidationRepository.NameOutcome | app/src/main/java/com/moyee/android/domain/repository/ValidationRepositoryImpl.kt:53-65 | The name result in every case: blank, size outside 2..5, the name message when some unit is not Hangul, otherwise `Success`. |
| ValidationRepository.EmptyInputIsBlank | app/src/main/java/com/moyee/android/domain/repository/ValidationRepositoryImpl.kt:11-65 | Empty input yields the blank message in all four rule sets, never the size message, although every minimum is at least 1. |
| ValidationRepository.IdBadCharHasEmptyMessage | app/src/main/java/com/moyee/android/domain/repository/ValidationRepositoryImpl.kt:22 | An id of valid length with a disallowed unit yields `NotAvailable` whose message is the empty string. |
| ValidationRepository.PasswordMirrorsId | app/src/main/java/com/moyee/android/domain/repository/ValidationRepositoryImpl.kt:25-37 | Password and id accept the same strings. Given the same display name, their results differ only in the pattern-failure message. |
| ValidationRepository.PasswordRejectsSpecialCharacters | app/src/main/java/com/moyee/android/domain/repository/ValidationRepositoryImpl.kt:30-36 | A password of valid length containing any non-alphanumeric unit fails the pattern check, although the pattern message asks for special characters. |
| ValidationRepository.NameRejectsLatinAndDigits | app/src/main/java/com/moyee/android/domain/repository/ValidationRepositoryImpl.kt:58-64 | A name of valid length containing an ASCII letter or digit fails with the name pattern message. |
| ValidationRepository.AcceptanceIgnoresContext | app/src/main/java/com/moyee/android/domain/repository/ValidationRepositoryImpl.kt:9-66 | Whether a value is accepted depends on the value alone. The injected context only names the field in messages. |
| ValidationRepository.SupplementaryTextRejected | app/src/main/java/com/moyee/android/domain/repository/ValidationRepositoryImpl.kt:11-65 | Text with a character outside the Basic Multilingual Plane is accepted by no rule set. |
| ValidationRepository.SpacesNeverAccepted | app/src/main/java/com/moyee/android/domain/repository/ValidationRepositoryImpl.kt:11-65 | A value holding a space is not blank and is accepted by no rule: within a rule's size bounds it gets that rule's pattern message, outside them the size message. |
| ValidationRepository.SpaceIdExample | app/src/main/java/com/moyee/android/domain/repository/ValidationRepositoryImpl.kt:11-23 | The id `" "` gets the size message for 5..15, not the blank message. |
| ValidationRepository.IdTooShortExample | app/src/main/java/com/moyee/android/domain/repository/ValidationRepositoryImpl.kt:11-23 | `ab12` has four characters and gets the size message for 5..15. |
| ValidationRepository.IdAcceptedExample | app/src/main/java/com/moyee/android/domain/repository/ValidationRepositoryImpl.kt:11-23 | `abcde` is a valid id. |
| ValidationRepository.IdHyphenExample | app/src/main/java/com/moyee/android/domain/repository/ValidationRepositoryImpl.kt:11-23 | `abc-de` has a valid length but a hyphen, and gets `Custom("")`. |
| ValidationRepository.NicknameExample | app/src/main/java/com/moyee/android/domain/repository/ValidationRepositoryImpl.kt:39-51 | `모이ㅎ7` is a valid nickname. |
| ValidationRepository.NameAcceptedExample | app/src/main/java/com/moyee/android/domain/repository/ValidationRepositoryImpl.kt:53-65 | `김철수` is a valid name. |
| ValidationRepository.NameLatinExample | app/src/main/java/com/moyee/android/domain/repository/ValidationRepositoryImpl.kt:53-65 | `Kim` fails the name pattern with the name message. |

## Left out

- The localized text of the blank and size messages and of the display
  names: they come from Android resources through `Context.getString`. The
  model keeps them as the abstract `Blank` and `Size` messages and as the
  names held in `Context`.
- `Regex` in general: only the shape `^[class]{min,max}$` that all four rules
  use is modelled. Patterns are not parsed from text; each rule's class is
  written out as its list of ranges.
- The JVM regex engine matches by code point, while the model matches by code
  unit. They agree on every input here because no class contains a
  surrogate. A surrogate pair is one code point outside every class, and the
  model sees a surrogate unit outside every class, so both reject.
- IsIdAvailable: `\d` is read as the ASCII digits 0-9, as in the JVM's
  default `java.util.regex`. On Android the regex engine is backed by ICU,
  which defines `\d` as `\p{Nd}`, every Unicode decimal digit. So on a
  device the id `١٢٣٤٥` (Arabic-Indic digits U+0661..U+0665) is accepted,
  while the model rejects it at the pattern check.
- IsPasswordAvailable: the same reading of `\d` as ASCII digits; on a device
  the password `١٢٣٤٥` is accepted, while the model rejects it.
- IsNicknameAvailable: the same reading of `\d` as ASCII digits; on a device
  a nickname of Unicode decimal digits such as `١٢٣` is accepted, while the
  model rejects it.
- `execute` is generic in its receiver and runs any block. The model runs
  blocks made of calls of the three checks on a `Validation` receiver, which
  is every use in the source.
- Exceptions other than `IllegalArgumentException` pass through `execute`
  uncaught. None of the checks can raise one, so the model has none.
- The rest of the app is not part of this model. That covers the Compose
  screens and components, the marker-icon bitmap compositor
  (`util/BitmapHelper.kt`), the permission helpers (`util/PermissionExt.kt`),
  the DataStore-backed first-launch flag, dependency injection and the
  `UserLocation` holder. They are UI rendering, foreign platform calls,
  floating-point geometry or persistence, with no validation logic.
