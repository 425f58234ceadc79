# JSONTranslator translation table, modelled in Dafny

This project models the translation store of a small country-name translator.
`JSONTranslator` reads a JSON array of country records. Each record has a row `id`,
an `alpha2` code, an `alpha3` code, and one field per language holding the
country's name in that language. From these records it builds the map
`translationData`: each upper-cased alpha3 code maps to a map from upper-cased
language code to name. Three read-only queries sit on top of the map:
`getCountries`, `getCountryLanguages` and `translate`.

Files:

- `wrappers.dfy` (module `Wrappers`): `Option`, which stands for Java's `null`, and `Result`, which stands for a thrown exception.
- `ascii.dfy` (module `Ascii`): `String.toUpperCase` restricted to ASCII, with its idempotence.
- `translation.dfy` (module `Translation`) holds:
  - the record and table types;
  - the specification of what the constructor builds (`IsCountryData`, `IsTablePrefix`, `IsTableOf`);
  - the imperative members: `GetLanguageKeys`, `CountryData`, `SetToSeq`;
  - the class `JSONTranslator` with its field `translationData`.
- `translation_properties.dfy` (module `TranslationProperties`): lemmas that connect the built table and the queries to the input records, and a worked one-record scenario.

Modelling choices:

- A record is an already-parsed JSON object: `map<string, string>`.
- The Java constructor can throw: `getString("alpha3")` throws on a record without that field. A Dafny constructor cannot fail, so `JSONTranslator.Load` is a static method that returns a `Result`. The plain constructor models the field initialiser, an empty map. `Load`'s loop writes the new object's `translationData` in place, as lines 43-57 do.
- HashMap and HashSet iteration order is unspecified. Every loop over a key set therefore takes an arbitrary next element (`:|`). List results are specified as sets or multisets.
- Because the order is unspecified, what the constructor builds for one record is a relation, `IsCountryData`, not a function. When two fields of one record upper-case to the same code, the relation does not say which value survives, and neither does the Java code. Without such collisions the result is unique (`CountryDataUnique`).
- An unknown country code makes `translate` and `getCountryLanguages` dereference the `null` that `HashMap.get` returned. Both return `Failure(NullPointer)`. A language the country lacks makes `translate` return `null`, modelled as `Success(None)`.
- Line 56 reads `alpha3` from the record. As written, the record has lost that field by then (see Findings). The model takes `alpha3` from the original record. This is the behaviour the code evidently intends, and the one the rest of the model uses.
- `getCountryLanguages` is modelled as written: it returns the stored names, though `Main.java:93` passes each result to `fromLanguageCode` as a language code (see Findings). `GetCountryLanguageCodes` is the corrected form.
- `translate` on an unknown country fails with a null dereference (`NullPointer`) instead of returning `null`.

## Model

| member | source | states |
|---|---|---|
| `Ascii.UpperChar` | src/main/java/org/translation/JSONTranslator.java:52 | the upper-cased character is never a lower-case ASCII letter; 'a'..'z' move to 'A'..'Z' and every other character is kept |
| `Ascii.Upper` | src/main/java/org/translation/JSONTranslator.java:52 | `toUpperCase` keeps the length and leaves no lower-case letter |
| `Ascii.UpperAt` | src/main/java/org/translation/JSONTranslator.java:52 | each character of the upper-cased string is the upper case of the character at the same position |
| `Ascii.UpperIdempotent` | src/main/java/org/translation/JSONTranslator.java:85 | upper-casing twice equals upper-casing once |
| `Ascii.UpperFixedPoint` | src/main/java/org/translation/JSONTranslator.java:85 | a string is unchanged by upper-casing exactly when it has no lower-case letter |
| `Wrappers.Get` | src/main/java/org/translation/JSONTranslator.java:85 | `Map.get` returns a value exactly when the key is present, and that value is the stored one |
| `Translation.GetString` | src/main/java/org/translation/JSONTranslator.java:56 | `getString` on a present key yields its string value; on a missing key it fails with `KeyNotFound` (JSONException) |
| `Translation.GetLanguageKeys` | src/main/java/org/translation/JSONTranslator.java:88-93 | the language keys are exactly the record's fields other than `id`, `alpha2` and `alpha3` (`LanguageFields`); the removals act on a copy of the key set, not on a live view of the record |
| `Translation.CountryData` | src/main/java/org/translation/JSONTranslator.java:47-53 | the per-country map has one key per upper-cased language field, and each value is that of a field upper-casing to it, whatever order the keys are visited in |
| `Translation.SetToSeq` | src/main/java/org/translation/JSONTranslator.java:79 | copying a key set into a list gives each element exactly once and nothing else |
| `Translation.TablePrefixStep` | src/main/java/org/translation/JSONTranslator.java:43-57 | one iteration of the constructor's loop (store the record's names under its code) keeps the table equal to what the records read so far determine |
| `Translation.TableIsWellFormed` | src/main/java/org/translation/JSONTranslator.java:52-56 | every country code and every language code in a built table is upper-case |
| `Translation.ReadAlpha3AsWritten` | src/main/java/org/translation/JSONTranslator.java:56 | as written, reading `alpha3` after the live-view removals of lines 89-92 always fails with a JSONException |
| `Translation.JSONTranslator.constructor` | src/main/java/org/translation/JSONTranslator.java:18 | a new translator starts with an empty table, which is a valid (upper-case) table |
| `Translation.JSONTranslator.Load` | src/main/java/org/translation/JSONTranslator.java:35-62 | loading succeeds exactly when every record has `alpha3`, else fails with a JSONException for that key; on success the table's keys are the upper-cased codes and each entry comes from the last record with that code |
| `Translation.JSONTranslator.GetCountryLanguages` | src/main/java/org/translation/JSONTranslator.java:65-75 | fails (null map) exactly for an unknown country; otherwise returns, as a multiset, exactly the country's stored names other than "id", "alpha3" and "alpha2" |
| `Translation.JSONTranslator.GetCountryLanguageCodes` | src/main/java/org/translation/JSONTranslator.java:65-75 | corrected form: fails exactly for an unknown country; otherwise returns each stored language code once, and `translate` finds a name for every code it returns |
| `Translation.JSONTranslator.GetCountries` | src/main/java/org/translation/JSONTranslator.java:78-80 | returns a duplicate-free list whose elements are exactly the table's country codes |
| `Translation.JSONTranslator.Translate` | src/main/java/org/translation/JSONTranslator.java:83-86 | fails (null map) exactly for an unknown upper-cased country; for a known country the result is present exactly when the upper-cased language is stored, and is then exactly the name stored under the upper-cased language |
| `TranslationProperties.UpperKeysCard` | src/main/java/org/translation/JSONTranslator.java:52 | distinct field names that do not collide under upper-casing give as many language codes as fields |
| `TranslationProperties.CountryDataFields` | src/main/java/org/translation/JSONTranslator.java:47-53 | without collisions, every language field appears under its upper-cased name with its own value, and the map has exactly as many keys as the record has language fields |
| `TranslationProperties.CountryDataUnique` | src/main/java/org/translation/JSONTranslator.java:49-53 | without collisions, the per-country map does not depend on the key iteration order |
| `TranslationProperties.CountriesAreCodes` | src/main/java/org/translation/JSONTranslator.java:43-57 | a code is in the built table exactly when some record's upper-cased `alpha3` equals it |
| `TranslationProperties.LaterRecordWins` | src/main/java/org/translation/JSONTranslator.java:43-56 | when two records share a code case-insensitively, the entry under that code comes entirely from a record at or after the later one |
| `TranslationProperties.TranslateCaseInsensitive` | src/main/java/org/translation/JSONTranslator.java:85 | `translate(c, l)` equals `translate(upper(c), upper(l))` for all arguments |
| `TranslationProperties.TranslateUnknownCountry` | src/main/java/org/translation/JSONTranslator.java:85 | after loading, `translate` fails with a null dereference exactly when no record's code matches the upper-cased country |
| `TranslationProperties.TranslateKnownCountry` | src/main/java/org/translation/JSONTranslator.java:85 | for a known country, `translate` is absent exactly when no language field of its last record matches the upper-cased language. Any value it returns is held by a matching field. Without collisions, it returns that field's value. |
| `TranslationProperties.LanguagesAfterLoad` | src/main/java/org/translation/JSONTranslator.java:65-75 | without collisions, a name's multiplicity among `getCountryLanguages`' results is the number of the last record's language fields holding it (zero for "id", "alpha2", "alpha3") |
| `TranslationProperties.SampleTable` | src/main/java/org/translation/JSONTranslator.java:35-62 | loading the one United States record gives exactly `{USA: {EN: United States, ES: Estados Unidos}}` |
| `TranslationProperties.SampleTranslate` | src/main/java/org/translation/JSONTranslator.java:85 | on that table, `translate("usa","es")` is "Estados Unidos": the lower-case code finds the upper-case entry |
| `TranslationProperties.SampleTranslateMissing` | src/main/java/org/translation/JSONTranslator.java:85 | on that table, `translate("usa","fr")` is absent (null) |
| `TranslationProperties.SampleTranslateName` | src/main/java/org/translation/JSONTranslator.java:85 | on that table, `translate("usa", name)` is absent for every name longer than two characters, such as "United States", which `getCountryLanguages` lists |
| `TranslationProperties.SampleTranslateUnknown` | src/main/java/org/translation/JSONTranslator.java:85 | on that table, `translate("can","en")` fails with a null dereference |
| `TranslationProperties.SampleLanguagesAreNames` | src/main/java/org/translation/JSONTranslator.java:68-71 | on that table, `getCountryLanguages("usa")` lists the name "United States" once and the code "EN" not at all |
| `TranslationProperties.SampleAlpha3AsWritten` | src/main/java/org/translation/JSONTranslator.java:56 | the sample record has `alpha3` = "usa", yet line 56 as written fails on it |

## Findings

| source | as written | input that shows it | evidently intended | confidence | as-written member | corrected member |
|---|---|---|---|---|---|---|
| src/main/java/org/translation/JSONTranslator.java:89-92 | `getLanguageKeys` removes `id`, `alpha2` and `alpha3` from `country.keySet()`. org.json documents that key set as a view backed by the object, so the removals delete the fields from the record itself. `country.getString(alpha3)` on line 56 then throws JSONException. | any record, e.g. `{id: 1, alpha2: "us", alpha3: "usa", en: "United States", es: "Estados Unidos"}`: the constructor throws on it instead of storing it under "USA" | remove the reserved names from a copy of the key set, and store the record under its upper-cased `alpha3` | high, not executed (it rests on org.json's `keySet()` being a live view, as its documentation states) | `Translation.ReadAlpha3AsWritten`, `TranslationProperties.SampleAlpha3AsWritten` | `Translation.GetLanguageKeys`, `Translation.JSONTranslator.Load` |
| src/main/java/org/translation/JSONTranslator.java:68-70 | `getCountryLanguages` iterates `.values()` and returns the translated names. The filter against "id", "alpha3" and "alpha2" compares names with field names. | the record above: the result is "United States" and "Estados Unidos", not "EN" and "ES", and `translate("usa", "United States")` is null. Main.java:93 passes each element to `fromLanguageCode`. | return the country's language codes, i.e. the keys | high, not executed | `Translation.JSONTranslator.GetCountryLanguages`, `TranslationProperties.SampleLanguagesAreNames` | `Translation.JSONTranslator.GetCountryLanguageCodes` |

## Left out

- Reading the data file (`Files.readString`, `getResource`, `toURI`, lines 38 and 59-61) is I/O. So is wrapping `IOException` and `URISyntaxException` in `RuntimeException`. `Load` starts from the parsed records.
- The no-argument constructor (lines 26-28) only names the resource file "sample.json". Everything else it does is the file-loading path above.
- JSON parsing by org.json (`new JSONArray`, line 40) is a foreign library and is not part of this model. Records are parsed maps whose values are all strings, so `getString`'s type check on non-string values (line 52) is not modelled. Only its missing-key exception is.
- `String.toUpperCase` is modelled for ASCII only. Locale-sensitive and non-ASCII case mappings are not modelled, for example 'ß' becoming "SS" or the Turkish dotless i.
- HashMap and HashSet iteration order is not modelled. Loops pick an arbitrary next key, and list results are stated as sets or multisets.
- `TranslateKnownCountry`, `CountryDataFields` and `LanguagesAfterLoad` give exact values only when no two language fields of a record upper-case to the same code. With such a collision the model states only that the surviving value is one of the colliding fields' values, because the Java result then depends on hash order.
- `Translate`, `GetCountryLanguages`: a `null` argument is not modelled, because Dafny strings cannot be null. In Java, `countryCode.toUpperCase()` (line 68) and `country.toUpperCase()` or `language.toUpperCase()` (line 85) throw a NullPointerException on a null argument. `Main.java` (lines 42 and 48) passes converter results, which may be null for an unknown name.
- `Main.java` is not part of this model: prompting on stdin, printing, and the `quit` handling. It depends on `CountryCodeConverter` and `LanguageCodeConverter`, which are not part of this model either.
- The `Translator` interface is not part of this model. Only the methods `JSONTranslator` implements are modelled.
- The fields `countryConverter` and `languageConverter` (lines 20-21) are never used by the translation table and are not modelled.
