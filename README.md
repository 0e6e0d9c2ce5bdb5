# Bilingual Snowball dictionary — a Dafny model

This project models `snowball_bilingual`. It is a PostgreSQL text-search dictionary template that stems every word twice, once in English and once in German. It is a variant of PostgreSQL's Snowball dictionary and is fixed to those two languages.

- `stemmer_table.dfy` (module `StemmerTable`) holds the module table. This is the English and German UTF-8 stemmers followed by an end marker. It also holds the two-pass search that `locate_stem_module` runs over that table:
  - the first pass looks for a module that works in the database encoding (or in any encoding, SQL_ASCII);
  - the second pass falls back to a UTF-8 module, with recoding;
  - if neither pass finds one, the search raises an error.
- `dictionary.dfy` (module `Dictionary`) models the dictionary state as classes. `DictLanguage` is one language slot, with its stemmer, its recoding flag and its stop list. `DictBilingual` holds the two slots. The module also models `dsnowball_bilingual_init`, which rejects every option and then binds slot 0 to English and slot 1 to German.
- `lexize.dfy` (module `Lexize`) models `lexize_language` and `dsnowball_bilingual_lexize`. They fill a zero-terminated array of three entries in place.
  - `Lexize` is proved equal to `LexizeResult`. That function is defined independently, from the list of lexemes the two slots produce.
  - The contract of `LexizeResult` states the shape of the result:
    - at most two lexemes;
    - English before German;
    - the second lexeme marked as a variant;
    - a duplicate lexeme dropped.
- `wrappers.dfy` (module `Wrappers`) holds `Option` and `Result`.

The server's services are parameters, bundled in `Dictionary.Server`:
- the database encoding;
- locale lower-casing;
- conversion to and from UTF-8;
- the contents of the stop-word files.

The Snowball stemming algorithms are the parameter `Lexize.Stemmer`, a function from an algorithm and a word to the buffer the stemmer leaves. `None` stands for a NULL buffer.

Errors raised with `ereport(ERROR, …)` are returned as `Err`/`Some` values of `StemmerTable.InitError`.

## Model

| member | source | states |
|---|---|---|
| StemmerTable.EndIndex | backend/pg-extensions/snowball_bilingual/snowball_bilingual.c:39-46 | The table's live rows end at the first end-marker row (the row whose name is NULL). No earlier row is an end marker. |
| StemmerTable.FirstMatch | backend/pg-extensions/snowball_bilingual/snowball_bilingual.c:79-103 | The first live row a pass accepts. The result is before the end marker, has a case-insensitively equal name and an acceptable encoding, and no earlier row qualifies. None means no live row qualifies. |
| StemmerTable.ScanModules | backend/pg-extensions/snowball_bilingual/snowball_bilingual.c:79-89 | The loop that walks the table to the sentinel and stops at the first accepted row. It returns exactly that first match. |
| StemmerTable.Locate | backend/pg-extensions/snowball_bilingual/snowball_bilingual.c:68-109 | It fails (naming the language and encoding) exactly when no live row has the name with an encoding of SQL_ASCII, the database encoding or UTF-8. On success the bound algorithm comes from the first row the chosen pass accepts: the first exact-encoding row when one exists (needrecode false), otherwise the first UTF-8 row (needrecode true). |
| StemmerTable.ShippedTableLocates | backend/pg-extensions/snowball_bilingual/snowball_bilingual.c:39-46 | With the shipped table, "english" and "german" are always found, for every database encoding. needrecode is set exactly when the database is not UTF-8. |
| StemmerTable.FirstMatchIgnoresCase | backend/pg-extensions/snowball_bilingual/snowball_bilingual.c:81-82 | Names that differ only in ASCII case select the same module. |
| Dictionary.DictLanguage.constructor | backend/pg-extensions/snowball_bilingual/snowball_bilingual.c:121 | A slot as palloc0 leaves it: no stemmer, no recoding, an empty stop list. |
| Dictionary.DictBilingual.constructor | backend/pg-extensions/snowball_bilingual/snowball_bilingual.c:121 | The dictionary starts with two distinct, zeroed slots: no stemmer, no recoding, empty stop list. |
| Dictionary.LocateStemModule | backend/pg-extensions/snowball_bilingual/snowball_bilingual.c:68-109 | The slot always gets the language's stop words. On success it gets the located algorithm and needrecode flag. On failure the error is returned and the slot's stemmer fields stay unchanged. |
| Dictionary.ValidateOptions | backend/pg-extensions/snowball_bilingual/snowball_bilingual.c:123-146 | Succeeds exactly when the option list is empty. Otherwise the first option is rejected: "StopWords" and "Language" (any case) with their own errors, every other name as unrecognized. |
| Dictionary.Init | backend/pg-extensions/snowball_bilingual/snowball_bilingual.c:111-154 | Any option is an error. With none, it succeeds exactly when both searches succeed, and otherwise returns the first search error. On success slot 0 is English and slot 1 is German. Each slot has its own stop words and needrecode set exactly when the database is not UTF-8. |
| Lexize.LanguageLexeme | backend/pg-extensions/snowball_bilingual/snowball_bilingual.c:164-202 | The lexeme one slot stores. If the stemmer leaves a NULL or empty buffer, it is the lower-cased word itself (when recoding to UTF-8 and back gives the word again). Otherwise it is the stemmer's output, recoded back to the server encoding if the slot needs recoding. |
| Lexize.LexizeLanguage | backend/pg-extensions/snowball_bilingual/snowball_bilingual.c:156-203 | Entry k's lexeme becomes the slot's lexeme for the word. The entry's other fields and every other entry are unchanged. |
| Lexize.LexizeResult | backend/pg-extensions/snowball_bilingual/snowball_bilingual.c:211-256 | See "Contract of Lexize.LexizeResult" below. |
| Lexize.Lexize | backend/pg-extensions/snowball_bilingual/snowball_bilingual.c:205-260 | Returns a fresh array of three entries, equal to LexizeResult for the word and the dictionary's two slots. |

### Contract of Lexize.LexizeResult

- The result has three entries, and the third is always the zero terminator.
- An empty lower-cased word gives three zeroed entries.
- Entry 0 has a lexeme exactly when the word is non-empty and some slot's stop list lacks it. That lexeme is the English one if English contributes, and the German one otherwise. Entry 0 always has nvariant 0.
- Entry 1 has a lexeme exactly when both slots contribute and their lexemes differ. It is then the German lexeme, with nvariant 1. Otherwise entry 1 is fully zeroed.

## Left out

- backend/src/ts/main.ts: it only builds an option record for an external GraphQL server library and opens a TCP listener. It has no logic of its own.
- The Snowball stemming algorithms (libstemmer): `Lexize.Stemmer` is an uninterpreted parameter. It is a pure function of the algorithm and the word, so the stemmer environment's internal state between calls is not modelled.
- `readstoplist` and `searchstoplist`: the contents of each stop-word file are the parameter `Server.stopWords`. A stop-list lookup is set membership.
- `lowerstr_with_len`, `pg_server_to_any` and `pg_any_to_server` are the parameters `Server.lower`, `Server.toUtf8` and `Server.fromUtf8`. The word and its length are one string.
- Memory management (`palloc`, `pfree`, `repalloc`, memory contexts), the function-manager argument plumbing, and the error codes and message texts of `ereport` (only which error is raised is modelled).
- StemmerTable.SameName: pg_strcasecmp's locale-dependent folding of non-ASCII upper-case characters is not modelled. Only ASCII case is folded.
- Strings are modelled as sequences without embedded NUL characters, so `strlen`, `strcmp` and the empty-string test work on whole sequences.
- A dictionary option's value is not modelled, because every option is rejected by its name alone.
- The stemmer's create and close entry points are folded into the slot's algorithm.
