# Classical ciphers: a Dafny model

This project models the cipher tools in the `encrypt-decrypt` repository:

- **Morse code, two versions.**
  - `morse2.py` keeps an instance-owned chart of 44 characters. It can validate and normalise a code (`parse_morse`), look a character or a code up (`in_morse_chart`), and add a character (`add_morse`). It encrypts a message character by character, and decrypts one code per single-space-separated token.
  - `morse.py` is the older version. It keeps the same chart as class attributes, cleans codes with `clean_morse`, strips the encrypted message, and has a `decrypt` that calls a method no class defines.
- **The Caesar cipher** (`caesar.py`). It works on the lower-cased text and shifts the letters along `a`–`z`.
- **The Vigenère cipher** (`vigenere.py`). It works on the upper-cased text. The key advances only on letters.
- **The tap code** (`tap.py`). It uses the 5×5 grid without `K`, and writes `K` as `C`. Decoding wraps rows and columns modulo 5.

## Modules

- `wrappers.dfy` — `Option` and `Result`. A `None` return, or an exception the source catches, becomes `None` or `Failure`.
- `pystr.dfy` — ASCII models of the Python `str` methods used by the ciphers: `upper`, `lower`, `strip`, `split()`, `split(d)`, `join` and `index`. It also has the lemmas that connect them, e.g. `split(d)` undoes `d.join`.
- `modular.dfy` — facts about `%` with a positive modulus. Python's `%` floors and Dafny's is Euclidean; the two agree for the moduli 26 and 5 used here.
- `morse_chart.dfy` — the chart, an insertion-ordered `dict` as a sequence of entries:
  - `Keys` and `Codes` are `list(chart.keys())` and `list(chart.values())`;
  - `Get` is `dict.get`;
  - `Upsert` is `dict.update` with one pair.
- `morse_builtin.dfy` — the 44-entry built-in chart, with its well-formedness: keys pairwise distinct, codes pairwise distinct, codes made of dots and dashes.
- `morse2.dfy`, `morse.dfy`, `caesar.dfy`, `vigenere.dfy`, `tap.dfy` — one module per source file. Every source class except `Vigenere` becomes a Dafny class; `Vigenere` holds only a constant alphabet, so its methods are module-level functions.
  - Each method is proved against a specification function: `Encrypted`, `Decrypted`, `Added`, `ShiftedText`, `TapCoded`, `TapDecoded`.
  - The lemmas beside each function state what the cipher promises: round trips, error conditions, invariants of the chart, and the source's own examples.

## Model

| member | source | states |
|---|---|---|
| BuiltinChart.BuiltinWellFormed | morse2.py:3-48 | The built-in chart has 44 entries, no key twice, no code twice, and every code is a non-empty run of dots and dashes. |
| BuiltinChart.BuiltinKeyShapes | morse.py:2-47 | Every built-in key is an upper-case letter, a digit, one of `.?!/-()`, or the two-character key `", "`. |
| MorseChart.Get | morse2.py:151 | `dict.get` gives `None` exactly when the key is absent; otherwise it gives the code stored with that key. |
| MorseChart.GetAt | morse2.py:49-50 | In a chart with distinct keys, the i-th key of `keys()` looks up the i-th code of `values()`. |
| MorseChart.Upsert | morse2.py:135 | `dict.update` appends a new key at the end, and keeps the key order when the key already exists. |
| MorseChart.UpsertGet | morse2.py:135 | After `dict.update`, the updated key maps to the new code and every other key keeps its old lookup. |
| MorseChart.UpsertDistinct | morse2.py:135-137 | `dict.update` keeps the keys distinct. |
| Morse2.ParseMorse | morse2.py:64-75 | `None` exactly when the code has no token or some token is not all dots and dashes. Otherwise: the same tokens joined by two spaces, no space at either end. |
| Morse2.ParseMorseIdempotent | morse2.py:64-75 | Parsing an already parsed code gives it back unchanged. |
| Morse2.HasDotsAndDashes | morse2.py:77-95 | True exactly when the argument is present, is not blank, and each whitespace-separated token is dots and dashes only; equivalently, when `parse_morse` accepts it. |
| Morse2.InMorseChart | morse2.py:97-115 | Stripped and upper-cased, a valid code is looked up among the codes: its first entry. Anything else is looked up among the keys. `None` exactly when the lookup misses or the argument is missing. |
| Morse2.ParsedCodeShape | morse2.py:64-75 | A code in the form `parse_morse` stores passes `_has_dots_and_dashes`, and `strip` and `upper` leave it unchanged. |
| Morse2.InMorseChartCode | morse2.py:101-107 | With distinct codes, each chart code in the form `parse_morse` stores finds its own entry. That covers every built-in code and every code `add_morse` adds, including multi-token codes such as `".  -"`. |
| Morse2.SpacedCodeFound | morse2.py:101-107 | After `add_morse("@", ". -")`, `in_morse_chart(".  -")` gives `("@", ".  -")`. |
| Morse2.InMorseChartKey | morse2.py:109-112 | With distinct keys, each key that is not itself dots and dashes, and that `strip` and `upper` leave unchanged, finds its own entry. |
| Morse2.CommaKeyMissed | morse2.py:101-112 | `in_morse_chart(", ")` gives `None`: the query is stripped to `","`, which is not a key, so the built-in `", "` key is never found. |
| Morse2.InMorseChartDot | morse2.py:103-107 | `in_morse_chart(".")` on the built-in chart gives `("E", ".")`: a key made of dots is read as a code. |
| Morse2.IsMorseInChart | morse2.py:117-124 | True exactly when the stripped code is already a code, or the stripped upper-cased character is already a key. |
| Morse2.Added | morse2.py:126-137 | `add_morse` fails with the invalid-code error exactly when the code is not dots and dashes. It fails with the already-in-chart error exactly when the code is valid and either its stripped form is a code or the stripped upper-cased character is a key. |
| Morse2.AddedUpdates | morse2.py:135-137 | A successful add keeps the keys distinct and stores the parsed code under `char.upper()`; every other key is unchanged. |
| Morse2.AddedAppends | morse2.py:135-137 | For a character without surrounding whitespace, a successful add appends exactly one entry at the end of the chart. |
| Morse2.AddedChecked | morse2.py:126-137 | The corrected add: the same error cases, but checked on the key and code that are actually stored. Success means the key and the parsed code were both new and one entry was appended. |
| Morse2.AddedCheckedBijective | morse2.py:117-137 | The corrected add keeps the chart one-to-one: keys distinct and codes distinct. |
| Morse2.AddedCheckedTwice | morse2.py:117-137 | After the corrected add, adding the same code under any character is refused. |
| Morse2.AddedCheckedAgrees | morse2.py:117-137 | When the character and the code have no stray whitespace, the corrected add behaves exactly like the source's add. |
| Morse2.CommaKeyOverwritten | morse2.py:123 | `add_morse(", ", ".-.-..")` on the built-in chart succeeds and replaces the code of the existing `", "` key instead of refusing it. |
| Morse2.CommaKeyRefused | morse2.py:123 | The corrected add refuses `add_morse(", ", ".-.-..")` as already in the chart. |
| Morse2.AddedDuplicateCode | morse2.py:122 | Two adds whose codes differ only in spacing are both accepted, and the chart then holds the same code twice. |
| Morse2.DuplicateCodeAccepted | morse2.py:122 | `add_morse("@", ". -")` and then `add_morse("%", ". -")` both succeed and leave the code `".  -"` stored twice. |
| Morse2.DuplicateCodeRefused | morse2.py:122 | The corrected add accepts the first of those two adds and refuses the second. |
| Morse2.AddSixtySeven | morse2.py:205-207 | Adding `"67"` with `-.----..-.---` appends that entry, and `in_morse_chart("67")` then finds it. |
| Morse2.EncryptChar | morse2.py:144-155 | A blank character encrypts to one space. Any other character succeeds exactly when its stripped upper-cased form is a key, and then gives that key's code followed by a space. |
| Morse2.EncryptedNoneIff | morse2.py:157-169 | Encryption fails exactly when some non-space character of the message, upper-cased, is not a key. |
| Morse2.EncryptedTokens | morse2.py:157-169 | An encodable message encrypts to one token per character, each followed by a space: the empty token for a space, the character's code for anything else. |
| Morse2.DecryptMorse | morse2.py:176-187 | A blank token decrypts to a space. Any other token succeeds exactly when its stripped form is a code, and gives the key at the first position holding that code. |
| Morse2.DecryptedNoneIff | morse2.py:189-201 | Decryption fails exactly when some single-space-separated token is not blank and is not a code. |
| Morse2.DecryptCode | morse2.py:176-187 | When the chart's codes are distinct runs of dots and dashes, each code decrypts to its own key. |
| Morse2.RoundTrip | morse2.py:144-201 | When the chart's codes are distinct runs of dots and dashes, decrypting the encryption of an encodable message gives the upper-cased message plus one trailing space. A message is encodable when each character is a space or has its upper-case form as a key. |
| Morse2.BuiltinRoundTrip | morse2.py:144-201 | The same round trip holds on the built-in chart. |
| Morse2.DecryptedJoin | morse2.py:189-201 | When the chart's codes are distinct runs of dots and dashes, codes joined by single spaces decrypt to their keys, and empty tokens decrypt to spaces. |
| Morse2.DecryptSos | morse2.py:189-201 | `"... --- ..."` decrypts to `"SOS"`. |
| Morse2.DecryptThisIsBus | morse2.py:212-213 | `"- .... .. ...  .. ...  -... ..- ..."` decrypts to `"THIS IS BUS"`. |
| Morse2.EncryptCommaFails | morse2.py:144-169 | `","` cannot be encrypted: the chart's key is `", "`, so the lookup of `","` misses and the `None + " "` error is caught. |
| Morse2.Morse.constructor | morse2.py:2-50 | A new `Morse` holds the built-in chart, with the key and code lists taken from it. |
| Morse2.Morse.AddMorse | morse2.py:126-137 | On success the chart becomes exactly `Added` of the old chart, and the lists are re-derived from it. On failure it returns the error and changes nothing. |
| Morse2.MorseEncrypt.Encrypt | morse2.py:157-169 | The loop's result equals `Encrypted` of the shared chart. |
| Morse2.MorseDecrypt.Decrypt | morse2.py:189-201 | The loop's result equals `Decrypted` of the shared chart. |
| Morse.CleanMorse | morse.py:89-94 | The cleaned code has no space at either end. |
| Morse.CleanParts | morse.py:89-94 | Splitting the cleaned code on `" "` gives the non-blank fields of the original, with an empty field between each pair; an all-blank code gives `[""]`. |
| Morse.CleanMorseIdempotent | morse.py:89-94 | Cleaning twice is cleaning once. |
| Morse.ValidMorseRaw | morse.py:72-87 | `is_morse` holds exactly when the code is not blank and each non-blank field of its `split(" ")` is dots and dashes. |
| Morse.IsMorse | morse.py:72-87 | The nested loop returns exactly `ValidMorse`. |
| Morse.InMorseChart | morse.py:51-70 | As in `morse2.py`, but a code is recognised by `is_morse`. |
| Morse.InMorseChartKey | morse.py:64-67 | With distinct keys, each key that is not a valid code, and that `strip` and `upper` leave unchanged, finds its own entry. |
| Morse.InMorseChartFive | morse.py:181 | `in_morse_chart("5")` gives `("5", ".....")`. |
| Morse.Added | morse.py:96-118 | An invalid code is refused. A valid code is refused as already in the chart exactly when the pair (`char.upper()`, raw code) is already an entry. |
| Morse.AddedUpdates | morse.py:101-107 | A successful add stores the cleaned code under `char.upper()`. A new key is appended and an existing key keeps its place. Keys stay distinct and every other key is unchanged. |
| Morse.AddedOverwritesA | morse.py:102-103 | `add_morse("A", "-")` replaces the code of `"A"`, so `"A"` and `"T"` then share the code `"-"`. |
| Morse.OverwrittenDecryptsA | morse.py:157 | After that overwrite, `decrypt_morse("-")` gives `"A"`, the key at the first position holding `"-"`, and not `"T"`. |
| Morse.EncryptLetter | morse.py:122-130 | A space encrypts to a space. Any other character succeeds exactly when its upper-cased form is a key, and then gives that code followed by a space. |
| Morse.Encrypted | morse.py:132-145 | A successful encryption has no whitespace at either end. |
| Morse.EncryptedNoneIff | morse.py:132-145 | Encryption fails exactly when some character other than a space, upper-cased, is not a key. |
| Morse.EncryptedAgrees | morse.py:132-145 | For messages whose only whitespace is spaces, this encryption is `morse2.py`'s encryption, stripped. |
| Morse.EncryptedWord | morse.py:132-145 | A word of known letters encrypts to their codes joined by single spaces. |
| Morse.EncryptSos | morse.py:132-145 | `encrypt("SOS")` gives `"... --- ..."`. |
| Morse.Morse.constructor | morse.py:1-49 | The class state starts as the built-in chart with its key and code lists. |
| Morse.Morse.AddMorse | morse.py:96-118 | On success the chart becomes exactly `Added` of the old chart. On failure it reports the error that the source prints, and changes nothing. |
| Morse.MorseEncrypt.Encrypt | morse.py:132-145 | The loop's result equals `Encrypted` of the chart. |
| Morse.MorseDecrypt.DecryptMorse | morse.py:149-161 | A blank token decrypts to a space. Any other token succeeds exactly when its stripped form is a code, and gives the key of the first entry holding that code. |
| Morse.MorseDecrypt.Decrypt | morse.py:163-176 | Every message gives `None`: the loop calls `decrypt_char`, which does not exist, and the `AttributeError` is caught. |
| Caesar.LetterIndex | caesar.py:29 | `alphabet.index` of a lower-case letter is its position below 26. |
| Caesar.RotateSpec | caesar.py:24-30 | A shifted character is a lower-case letter exactly when the original is. Other characters stay. A letter's index moves by the shift, modulo 26. |
| Caesar.RotateBack | caesar.py:93-95 | Shifting back by the same amount restores every character. |
| Caesar.RotateCongruent | caesar.py:63-65 | Shifts congruent modulo 26 move every character alike. |
| Caesar.EncryptedShape | caesar.py:42-61 | Encryption fails exactly on blank text. Otherwise the ciphertext has the text's length, has no capitals, and keeps every non-letter in place. |
| Caesar.RoundTrip | caesar.py:42-95 | Decrypting the encryption of non-blank text with the same shift gives the lower-cased text. |
| Caesar.CongruentShifts | caesar.py:42-95 | Shifts congruent modulo 26 give the same encryption and the same decryption. |
| Caesar.HelloWorld | caesar.py:103-104 | `"Hello, world!"` encrypts with shift 21 to `"czggj, rjmgy!"`, which decrypts to `"hello, world!"`. |
| Caesar.Caesar.Decrypt | caesar.py:17-35 | The loop's result equals `Decrypted`: `None` on blank text, else the lower-cased text shifted back. |
| Caesar.CaesarEncrypt.Encrypt | caesar.py:42-47 | The result equals `Encrypted`. |
| Caesar.CaesarEncrypt.EncryptText | caesar.py:49-61 | For text without capitals: `None` if blank, else every letter shifted forward and every other character kept. |
| Caesar.CaesarEncrypt.EncryptLetter | caesar.py:63-65 | A lower-case letter goes to the lower-case letter whose index is its own plus the shift, modulo 26. |
| Caesar.CaesarDecrypt.Decrypt | caesar.py:72-77 | The result equals `Decrypted`. |
| Caesar.CaesarDecrypt.DecryptText | caesar.py:79-91 | For text without capitals: `None` if blank, else every letter shifted back and every other character kept. |
| Caesar.CaesarDecrypt.DecryptLetter | caesar.py:93-95 | A lower-case letter goes to the lower-case letter whose index is its own minus the shift, modulo 26. |
| Vigenere.GetKeyChar | vigenere.py:23-24 | The key character is a character of the key, and is the one at that index while the index is below the key's length. |
| Vigenere.GetIndices | vigenere.py:15-21 | Succeeds exactly when the key character is a letter and the text letter is upper-case; then it gives both alphabet positions. |
| Vigenere.ShiftLetter | vigenere.py:8-13 | Fails exactly when the key character is not a letter or the text letter is not upper-case. Otherwise the new letter's index is the letter's index plus the key letter's index times the mode, modulo 26. |
| Vigenere.ShiftText | vigenere.py:26-40 | The loop's result equals `ShiftedText`. |
| Vigenere.Encrypt | vigenere.py:42-47 | Encryption is `shift_text` with mode 1. |
| Vigenere.Decrypt | vigenere.py:49-54 | Decryption is `shift_text` with mode -1. |
| Vigenere.ShiftedTextNone | vigenere.py:26-54 | The shift fails exactly when the text is blank or a letter meets a key character that is not a letter. The key index there is the number of letters before it. |
| Vigenere.ShiftedTextShape | vigenere.py:33-40 | The result has the text's length and keeps non-letters. The i-th letter is shifted by the key letter at (letters before it) mod key length, times the mode. |
| Vigenere.CipherLayout | vigenere.py:33-40 | The result is upper-case, not blank, and has letters in exactly the text's letter positions. |
| Vigenere.KeyCaseInsensitive | vigenere.py:16 | Keys that differ only in case give the same result. |
| Vigenere.LetterKeySucceeds | vigenere.py:26-54 | With an all-letter key, non-blank text always shifts successfully. |
| Vigenere.RoundTrip | vigenere.py:26-54 | With an all-letter key, decrypting the encryption of non-blank text gives the upper-cased text. |
| Vigenere.HelloVigenere | vigenere.py:58-65 | With key `"vigenere"`, `"Hello, world!"` encrypts to `"CMRPB, AFVGL!"`, which decrypts to `"HELLO, WORLD!"`. |
| Tap.GridLetters | tap.py:1 | Every grid cell holds an upper-case letter other than `K`, and no letter sits in two cells. |
| Tap.CellOf | tap.py:1 | Every upper-case letter other than `K` has a cell in the grid. |
| Tap.CellUnique | tap.py:1 | A cell holds a letter exactly when that letter's cell is that cell. |
| Tap.ParseNumeral | tap.py:15-22 | `int` reads back the decimal numeral that the f-string writes. |
| Tap.ScanGrid | tap.py:12-16 | The inner loop over the rows gives exactly the taps that `RowTaps` specifies for the letter. |
| Tap.RowTapsCell | tap.py:12-16 | Scanning the rows gives one tap for a letter with a cell and none for any other character. |
| Tap.TapCode | tap.py:4-18 | The loop's result equals `TapCoded`. |
| Tap.TapsKept | tap.py:8-16 | The taps are the codes of the upper-cased message with `K` read as `C` and every character without a cell dropped. |
| Tap.TapCodedWords | tap.py:4-18 | The words of the tap code are exactly the `row,col` codes of the kept letters, in order. |
| Tap.ParseAll | tap.py:22 | Parsing a tap's parts fails exactly when one part is not an integer; otherwise it gives each part's value. |
| Tap.ParseTaps | tap.py:22 | Parsing the taps fails exactly when one tap fails; otherwise it gives each tap's numbers. |
| Tap.TapLetter | tap.py:27-34 | Any pair of numbers, wrapped modulo 5, picks a grid letter. |
| Tap.TapLetterWraps | tap.py:30-32 | Adding multiples of 5 to the row or the column picks the same letter. |
| Tap.TapDecode | tap.py:21-36 | The two loops' result equals `TapDecoded`. |
| Tap.DecodeWordsNone | tap.py:21-36 | Decoding fails exactly when some tap does not parse or has fewer than two numbers. |
| Tap.DecodeWordsLetters | tap.py:21-36 | A successful decoding gives one grid letter per tap: the letter at its first two numbers, wrapped. |
| Tap.DecodeOneTap | tap.py:21-36 | A single tap `row,col` decodes to the wrapped letter at that row and column. |
| Tap.ParseTapNumbers | tap.py:15-22 | Parsing the text `row,col` gives back `[row, col]`. |
| Tap.RoundTrip | tap.py:4-36 | Decoding the tap code of any message gives the upper-cased message, with `K` read as `C` and characters without a cell dropped. |
| Tap.DecodeSixSeven | tap.py:30-32 | `"6,7"` and `"1,2"` both decode to `"B"`. |
| Tap.DogEncode | tap.py:40-43 | `tap_code("DOG")` gives `"1,4 3,4 2,2"`. |
| Tap.DogDecode | tap.py:41-44 | `tap_decode("1,4 3,4 2,2")` gives `"DOG"`. |

## Left out

- Arguments of the wrong type. The model's parameters are typed strings and integers. Where the source defaults an argument to `None` and handles it, the model takes an `Option`: `_has_dots_and_dashes`, `in_morse_chart`, `is_morse`, and `add_morse`'s code. A `None` message or text, or a `None` character in `add_morse`, is not modelled. The same goes for non-integer shifts.
- Exceptions. A caught exception becomes `None` or a `Failure`. `add_morse` in `morse2.py` raises its two `ValueError`s to the caller; the model returns them as an `AddError` value. `add_morse` in `morse.py` prints its two messages; the model returns the same error value instead.
- `print` and the `main` functions. Their calls appear only as example lemmas.
- Unicode. `upper`, `lower`, `strip`, `split` and `isalpha` are modelled for ASCII only. Non-ASCII letters, which make `alphabet.index` raise in the Caesar and Vigenère ciphers, are not modelled.
- Class attributes in `morse.py` are one shared chart. Calling `add_morse` through a subclass, which would shadow the lists on that subclass only, is not modelled.
- The read-only properties of `Caesar` (`alphabet`, `alpha_len`) and `Morse` (`morse_chart`, `characters`, `codes`) are read as fields. The `Vigenere` class holds only its constant alphabet, so its methods are module-level functions.
- Caesar.CaesarEncrypt.EncryptText: requires text without capitals, because its only caller passes `text.lower()`. A capital would make `alphabet.index` raise.
- Caesar.CaesarDecrypt.DecryptText: requires text without capitals, for the same reason.
- Vigenere.ShiftText: requires a non-empty key. With an empty key the source divides by zero at the first letter of the text (`key[key_idx % len(key)]`), and `encrypt` and `decrypt` do not catch `ZeroDivisionError`. The requires also excludes two cases the source answers normally with an empty key: blank text gives `None`, and text without letters comes back unchanged. The same holds for `Vigenere.Encrypt`, `Vigenere.Decrypt` and the lemmas about them.
- Tap.ParseInt: accepts an optional sign followed by ASCII digits. Python's `int` also accepts surrounding whitespace, `_` between digits and non-ASCII digits; those inputs are decoded as failures here. Also, `tap_decode` raises instead of returning on an unparsable tap; the model returns `None` there.

## Findings

| source | as written | input that shows it | evidently intended | confidence | as-written member | corrected member |
|---|---|---|---|---|---|---|
| morse2.py:123 | `add_morse` checks the key as `char.upper().strip()`, but line 135 stores it as `char.upper()` | `add_morse(", ", ".-.-..")` on the built-in chart: `","` is not a key, so the check passes and the built-in `", "` code is overwritten | a character already in the chart is refused | not executed | Morse2.CommaKeyOverwritten | Morse2.CommaKeyRefused |
| morse2.py:122 | `add_morse` checks the code as `morse.strip()`, but line 135 stores `parse_morse(morse)` | `add_morse("@", ". -")` then `add_morse("%", ". -")`: the stored `".  -"` never equals the checked `". -"`, so both succeed and the chart holds one code twice | a code already in the chart is refused, so each code decrypts to one character | not executed | Morse2.DuplicateCodeAccepted | Morse2.DuplicateCodeRefused |
