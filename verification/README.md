# DocSim greeter, modelled in Dafny

The repository's own logic is the `DocSim` greeter in namespace `docsim`.
A `DocSim` object keeps the name it was constructed with. Its `const` member
`greet(lang)` switches on a four-valued `LanguageCode` (`EN`, `DE`, `ES`,
`FR`, defaulting to `EN`). It returns `fmt::format` of a template with one
`{}` field: `"Hello, {}!"`, `"Hallo {}!"`, `"¡Hola {}!"` or `"Bonjour {}!"`.
The `default:` label shares the `EN` case.

The project is six modules, one file each:

- `Docsim` (`docsim.dfy`) covers the header and `source/docsim.cpp`.
  - `LanguageCode` is a datatype.
  - The enumeration's underlying `int` is the `int32` newtype. `Branch` is the switch, `default:` included.
  - `Template` and `Prefix` are the literal templates and their salutations.
  - `DocSim` is an immutable record holding `name`, with `Greet` and `GreetValue`.
  - `Call` is one `const` call and `Session` threads one object through successive calls. Because the model's objects are immutable values, `Call` returns its object unchanged by construction: the `const` promise is built into the model rather than derived.
- `Wrappers` (`wrappers.dfy`) defines the `Option` datatype the decoder and the parser return.
- `Fmt` (`fmt.dfy`) is the slice of `fmt::format` the greeter uses: one argument put in place of the first `{}`.
- `Utf8` (`utf8.dfy`) is UTF-8 encoding and decoding. A `std::string` holds bytes. The model's names are Unicode text, so a name here stands for a `std::string` whose bytes are valid UTF-8, and then the greeting's bytes are the UTF-8 encoding of its characters. Decoding is proved to invert encoding in both directions.
- `Parser` (`parser.dfy`) recognises a greeting and recovers its language and name. It is the inverse of `greet`.
- `DocsimTest` (`docsim_test.dfy`) holds the unit test's expectations for the object named `"Tests"`.

Characters are Unicode scalar values. This is Dafny's default `--unicode-char` mode, so `¡` is the single character U+00A1.

## Model

| member | source | states |
|---|---|---|
| Docsim.Ordinal | include/docsim/docsim.h:8 | every enumerator's implicit underlying value lies in 0 to 3; Branch maps each back to its enumerator, so distinct enumerators have distinct values |
| Docsim.Branch | source/docsim.cpp:9-19 | each enumerator's value reaches that enumerator's case, and a value in 0 to 3 reaches the enumerator holding it; every other `int` value reaches `default:`, which is the `EN` case |
| Docsim.Template | source/docsim.cpp:12-18 | each literal format string holds one field `{}` three characters from its end, no brace before it, and ends with `!` |
| Docsim.Prefix | source/docsim.cpp:11-18 | a salutation holds neither brace and no `!` |
| Docsim.TemplateShape | source/docsim.cpp:11-18 | each case's template is its salutation, then a `{}` field, then `!` |
| Docsim.DocSim.Greet | source/docsim.cpp:8-19 | for every language the greeting is the salutation, then the stored name unchanged just before a final `!`; its length is the salutation's length plus the name's length plus one |
| Docsim.DocSim.GreetValue | source/docsim.cpp:9-19 | for any underlying value the result is one of the four greetings; an enumerator's value gets that enumerator's greeting; values that name no enumerator get the English one |
| Docsim.DocSim.Call | include/docsim/docsim.h:28 | one `const` call leaves the object as it was (by construction) and returns a string carrying the stored name between salutation and `!` |
| Docsim.GreetIsFormat | source/docsim.cpp:11-18 | each greeting equals what the single-field substitution makes of that case's literal template with the stored name |
| Docsim.GreetDefault | include/docsim/docsim.h:28 | `greet()` with the default argument is `greet(EN)`, i.e. `"Hello, " + name + "!"` |
| Docsim.GreetEnglish | source/docsim.cpp:10-12 | `greet(EN)` is exactly `"Hello, " + name + "!"` |
| Docsim.GreetGerman | source/docsim.cpp:13-14 | `greet(DE)` is exactly `"Hallo " + name + "!"` |
| Docsim.GreetSpanish | source/docsim.cpp:15-16 | `greet(ES)` is exactly the inverted exclamation mark, then `"Hola " + name + "!"` |
| Docsim.GreetFrench | source/docsim.cpp:17-18 | `greet(FR)` is exactly `"Bonjour " + name + "!"` |
| Docsim.Session | include/docsim/docsim.h:28 | across any run of `const` calls, each made on the object the previous call left, the object is the one constructed and every call returns the greeting of the constructor's name |
| Docsim.SessionRepeats | source/docsim.cpp:8 | two calls with the same language return the same string, wherever they fall in a run of calls |
| Docsim.PrefixBytes | source/docsim.cpp:11-18 | the salutations take 7, 6, 7 and 8 bytes in UTF-8, and the inverted exclamation mark takes two |
| Docsim.GreetBytes | source/docsim.cpp:8-19 | the bytes of a greeting are the salutation's bytes, the name's bytes and the byte 0x21; the byte length is the name's byte length plus 8, 7, 8 or 9 |
| Fmt.Format | source/docsim.cpp:12 | a template with no field comes back unchanged; with a field, the result is two characters shorter plus the argument's length |
| Fmt.FormatSubstitutes | source/docsim.cpp:11-18 | a template `p + "{}" + s` with no brace in `p` formats to `p + arg + s` |
| Parser.Parse | source/docsim.cpp:11-18 | a string is rejected exactly when it has the shape of no language's greeting; an accepted one has the shape of the language returned |
| Parser.MatchesUnique | source/docsim.cpp:11-18 | no string has the shape of greetings in two languages |
| Parser.ParseGreet | source/docsim.cpp:6-19 | parsing any greeting returns its language and the name the constructor stored, verbatim |
| Parser.GreetParse | source/docsim.cpp:8-19 | every string that parses is the greeting of the language and name it parses to |
| Parser.GreetInjective | source/docsim.cpp:8-19 | equal greetings come from the same language and the same stored name |
| DocsimTest.EnglishExpected | test/source/docsim.cpp:10-12 | the object named "Tests" greets in English with `"Hello, Tests!"` |
| DocsimTest.GermanExpected | test/source/docsim.cpp:13 | it greets in German with `"Hallo Tests!"` |
| DocsimTest.FrenchExpected | test/source/docsim.cpp:15 | it greets in French with `"Bonjour Tests!"` |
| DocsimTest.SpanishExpected | source/docsim.cpp:15-16 | it greets in Spanish with `"¡Hola Tests!"`, whose bytes start 0xC2 0xA1 |
| DocsimTest.SpanishBytesAsLatin1 | test/source/docsim.cpp:14 | for an ASCII name, reading the Spanish greeting's bytes one per character gives A-circumflex, the inverted exclamation mark, `"Hola "`, the name, `!` |
| DocsimTest.SpanishBytesDiffer | test/source/docsim.cpp:14 | for any name, the Spanish greeting's bytes differ from the bytes of the text those bytes spell read one per character (Latin-1) |
| DocsimTest.SpanishAsWritten | test/source/docsim.cpp:14 | the test's Spanish literal is the greeting's bytes read one per character, and its bytes differ from the greeting's |

## Left out

- `standalone/source/main.cpp` is not part of this model. It holds zlib decompression, iconv transcoding, the faiss IVF-PQ index, the Redis scan loop and the command line. All of these are calls into libraries whose code is not here, or I/O, floating point and randomness.
- The version check in `test/source/docsim.cpp:18-21` compares a build-time constant. It holds no logic.
- Fmt.Format: models only what the four templates use. The text outside the first `{}` is copied verbatim. Brace escapes (`{{`, `}}`), numbered or named fields, format specifications and the error `fmt` reports for a malformed template are not modelled, since none of them occurs in a greeter template.
- Docsim.GreetBytes: names are modelled as Unicode text, so a name whose bytes are not valid UTF-8 (the Latin-1 bytes 4A 6F 73 E9, say) is outside the model; `greet` copies such bytes unchanged in the same way, but no lemma here states it.
- Docsim.GreetBytes: assumes GCC and Clang's default UTF-8 source and execution character sets. A compiler that reads the source in another code page would store other bytes for the Spanish literal.
- Docsim.Branch: the underlying type `int` is taken to be 32 bits wide (the `int32` newtype), as on the platforms GCC and Clang target; a different width only changes which out-of-range values exist, all of which reach `default:`.
- Memory allocation failure inside `fmt::format` or `std::string` (`std::bad_alloc`) is not modelled.

## Findings

| source | as written | input that shows it | evidently intended | confidence | as-written member | corrected member |
|---|---|---|---|---|---|---|
| test/source/docsim.cpp:14 | the expected Spanish literal is stored as the bytes C3 82 C2 A1 then "Hola Tests!", i.e. "Â¡Hola Tests!"; that is the greeting's UTF-8 bytes read as Latin-1 and encoded again | `DocSim("Tests").greet(LanguageCode::ES)`, whose bytes start C2 A1 (the template in source/docsim.cpp:16 stores the mark as C2 A1), so the `CHECK` at test/source/docsim.cpp:14 compares unequal strings | the literal "¡Hola Tests!", the same text as the template with the name filled in | medium: follows from the file bytes when both files are compiled with the same character set; not executed | DocsimTest.SpanishAsWritten | DocsimTest.SpanishExpected |
