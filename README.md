# CORS origin settings of the backend configuration

This project models the CORS part of the backend's application settings
(`backend/app/core/config.py`):

- `parse_cors`, the validator that runs before `BACKEND_CORS_ORIGINS` is
  stored. A string that does not start with `[` is split on `,`; each piece
  is whitespace-stripped and empty pieces are dropped. A list, or a string
  starting with `[`, is returned unchanged. Any other value raises
  `ValueError` carrying the value.
- `Settings.all_cors_origins`, the computed list of allowed origins. Every
  configured origin loses all of its trailing `/`, and `FRONTEND_HOST` is
  appended unchanged.

The code is pure, so everything is written as functions and lemmas, in three
modules:

- `Seqs` holds small facts about slicing and concatenating sequences.
- `PyStr` models the Python string operations the code relies on:
  `str.strip()` over the `str.isspace` character set, `str.rstrip("/")` and
  `str.split(",")` (which always returns at least one piece, so `""` splits
  into `[""]`). It also defines joining with a separator (`",".join`) and
  plain concatenation (`"".join`). The configuration code calls neither;
  they serve only to state the round-trip and idempotence lemmas and what
  iterating a string yields.
- `CorsConfig` models the validator (`ParseCors`) and the computed origin
  list (`AllCorsOrigins`), and proves the properties below.

The raw validator input is `RawCors = Str(s) | List(xs) | Other`. The
validator's value is `Cors = Origins(xs) | Text(s)`, i.e. `list[str] | str`.
Its outcome is `Ok(value)` or `ValueError(arg)`.

When `BACKEND_CORS_ORIGINS` holds a string (the `[`-prefixed pass-through
case), `for origin in ...` walks the string's characters. `Elements` models
this, and `AllCorsOriginsOfText` states what it produces.

## Model

| member | source | states |
|---|---|---|
| PyStr.IsSpace | backend/app/core/config.py:26 | the whitespace set `strip()` removes: the characters for which Python's `str.isspace()` holds, given as code-point ranges |
| PyStr.IsSpaceListed | backend/app/core/config.py:26 | the ranges in `IsSpace` are exactly the 29 characters of `PySpaces`, listed one by one |
| PyStr.LStrip | backend/app/core/config.py:26 | the result is a suffix of the input; what was removed is all whitespace; the result does not start with whitespace |
| PyStr.RStrip | backend/app/core/config.py:26 | the result is a prefix of the input; what was removed is all whitespace; the result does not end with whitespace |
| PyStr.Strip | backend/app/core/config.py:26 | `i.strip()` is no longer than `i` and has no whitespace at either end; `StripDecompose` and `StripUnique` pin down which string it is |
| PyStr.StripDecompose | backend/app/core/config.py:26 | `strip()` splits the input into whitespace, a stripped core and whitespace, and the input is exactly their concatenation |
| PyStr.StripEmptyIff | backend/app/core/config.py:26 | `i.strip()` is empty exactly when the piece is all whitespace, which is the filter's test |
| PyStr.LStripSpacePrefix | backend/app/core/config.py:26 | leading whitespace added in front of a string does not change its left-strip |
| PyStr.RStripSpaceSuffix | backend/app/core/config.py:26 | trailing whitespace added after a string does not change its right-strip |
| PyStr.StripUnique | backend/app/core/config.py:26 | a stripped text surrounded by whitespace strips to exactly that text |
| PyStr.StripStripped | backend/app/core/config.py:26 | a text with no whitespace at either end is its own strip |
| PyStr.StripIdempotent | backend/app/core/config.py:26 | stripping twice is stripping once |
| PyStr.StripKeepsOnly | backend/app/core/config.py:26 | stripping introduces no character, in particular no `,` |
| PyStr.RStripChar | backend/app/core/config.py:98 | `rstrip("/")` returns a prefix of its input; only `/` characters were removed; the result does not end in `/` |
| PyStr.RStripCharUnique | backend/app/core/config.py:98 | a text not ending in `/`, followed by any run of `/`, strips to exactly that text |
| PyStr.RStripCharIdempotent | backend/app/core/config.py:98 | stripping trailing `/` twice is stripping once |
| PyStr.JoinFirst | backend/app/core/config.py:26 | a join begins with the first character of its first string, which decides the `[` test when joined origins are parsed again |
| PyStr.ConcatSingletons | backend/app/core/config.py:98 | the one-character strings of a string, concatenated, give the string back |
| PyStr.FindSep | backend/app/core/config.py:26 | the position found is the first occurrence of the separator, or the length when there is none |
| PyStr.FindSepUnique | backend/app/core/config.py:26 | the first occurrence of the separator is the only position with those properties |
| PyStr.Split | backend/app/core/config.py:26 | `split(",")` always yields at least one piece |
| PyStr.SplitPiecesFree | backend/app/core/config.py:26 | no piece of the split contains the separator |
| PyStr.JoinSplit | backend/app/core/config.py:26 | joining the pieces with the separator gives back the string, so the split loses nothing and keeps the order |
| PyStr.SplitNoSep | backend/app/core/config.py:26 | a string without the separator splits into itself alone |
| PyStr.SplitAppend | backend/app/core/config.py:26 | the pieces of `a,b` are the pieces of `a` followed by those of `b` |
| PyStr.SplitJoin | backend/app/core/config.py:26 | separator-free pieces joined with the separator split back into exactly those pieces |
| CorsConfig.KeepStripped | backend/app/core/config.py:26 | the comprehension keeps at most as many entries as there are pieces |
| CorsConfig.KeepStrippedShape | backend/app/core/config.py:26 | every kept entry is non-empty and stripped, and contains no character that no piece contains |
| CorsConfig.ConsClean | backend/app/core/config.py:26 | putting a clean entry in front of clean entries keeps them all clean |
| CorsConfig.KeepStrippedAppend | backend/app/core/config.py:26 | the comprehension over `a + b` is the comprehension over `a` followed by the one over `b` |
| CorsConfig.KeepStrippedBlank | backend/app/core/config.py:26 | pieces that are all whitespace are all dropped |
| CorsConfig.KeepStrippedFixed | backend/app/core/config.py:26 | pieces that are already non-empty and stripped are kept unchanged |
| CorsConfig.StartsWithBracket | backend/app/core/config.py:25 | `v.startswith("[")`: the string has `"["` as its one-character prefix |
| CorsConfig.SplitOrigins | backend/app/core/config.py:26 | the comprehension `[i.strip() for i in v.split(",") if i.strip()]`; it has no contract of its own, and `SplitOriginsAppend` with `SplitOriginsSingle` fixes its value on every string |
| CorsConfig.ParseCors | backend/app/core/config.py:23-29 | `ValueError` exactly for a value that is neither a string nor a list, and it carries that value; a list is returned unchanged; a string starting with `[` is returned unchanged; any other string becomes the comma-separated origins `SplitOrigins(s)`, at most `len(s) + 1` of them, each non-empty, stripped and comma-free |
| CorsConfig.SplitCount | backend/app/core/config.py:26 | a string of length n splits into at most n + 1 pieces |
| CorsConfig.SplitOriginsClean | backend/app/core/config.py:26 | every origin from the comma-separated branch is non-empty, has no whitespace at either end and has no `,`, and there are at most `len(s) + 1` of them |
| CorsConfig.SplitOriginsAppend | backend/app/core/config.py:25-26 | order is kept: the origins of `a,b` are those of `a` followed by those of `b` |
| CorsConfig.SplitOriginsSingle | backend/app/core/config.py:25-26 | a comma-free string gives its stripped text, or nothing when it is all whitespace; together with `SplitOriginsAppend` this fixes the result for every string |
| CorsConfig.SplitBlank | backend/app/core/config.py:26 | a string of only whitespace and commas splits into pieces that are all whitespace |
| CorsConfig.SplitOriginsBlank | backend/app/core/config.py:25-26 | a string of only whitespace and commas gives no origins |
| CorsConfig.SplitOriginsBlankExamples | backend/app/core/config.py:25-26 | `""` and `" , ,"` give the empty list |
| CorsConfig.SplitOriginsEntry | backend/app/core/config.py:25-26 | one clean origin padded with whitespace gives exactly that origin |
| CorsConfig.SplitOriginsJoin | backend/app/core/config.py:26 | clean origins joined with `,` parse back into exactly those origins |
| CorsConfig.ParseCorsIdempotent | backend/app/core/config.py:25-26 | joining the parsed origins with `,` and parsing again gives the same result, provided the first origin does not itself start with `[` |
| CorsConfig.ReparseBracket | backend/app/core/config.py:25-28 | the proviso is needed: whitespace followed by a clean origin `x` starting with `[` parses to the list `[x]`, whose join `x` passes through as a string |
| CorsConfig.ReparseBracketOrigin | backend/app/core/config.py:25-28 | the smallest instance: `" [a"` parses to the origin `[a`, and `"[a"` passes through as a string |
| CorsConfig.Elements | backend/app/core/config.py:98 | iterating a list setting yields its elements; iterating a string setting yields as many strings as it has characters, each of length one, which concatenated give the string back |
| CorsConfig.AllCorsOrigins | backend/app/core/config.py:94-100 | one entry per configured origin plus one; the last entry is `FRONTEND_HOST` as configured; entry `i` is a prefix of origin `i`, only `/` were removed from it, and it does not end in `/` |
| CorsConfig.AllCorsOriginsStable | backend/app/core/config.py:98-100 | stripping trailing `/` from the configured entries again changes nothing, and the last entry is the frontend host |
| CorsConfig.AllCorsOriginsAt | backend/app/core/config.py:98 | entry `i` is what `rstrip("/")` gives for origin `i` followed by any extra slashes, so only the trailing run of `/` matters |
| CorsConfig.AllCorsOriginsOfText | backend/app/core/config.py:90-98 | for a string setting, the entries are its characters, with `""` for each `/` |
| CorsConfig.DefaultOrigins | backend/app/core/config.py:87-100 | with the declared defaults the only allowed origin is `http://localhost:8080` |

## Left out

- `_load_app_version_from_pyproject` (lines 32-51) is left out. It reads `pyproject.toml` from disk, which is file I/O.
- The `SECRET_KEY` default (line 81) is left out. It comes from `secrets.token_urlsafe`, which is randomness.
- `SQLALCHEMY_DATABASE_URI` is left out. It is a call into pydantic's `PostgresDsn.build`, whose escaping rules are not part of this model.
- The pydantic-settings machinery is left out because it is library code:
  - environment and `.env` loading;
  - JSON decoding of complex environment values before the validator runs;
  - `env_ignore_empty`;
  - the `TESTING` switch;
  - the module-level `settings` object.
- The other plain settings fields are left out. They have defaults and no logic.
- `AnyUrl` validation and normalisation of list entries is left out, because it is pydantic library code. `str(origin)` is modelled as the origin string itself.
- CorsConfig.RawCors: list elements are modelled as strings. A list holding non-string elements is passed through by the source just the same, and later rejected or converted by pydantic. That part is not modelled.
- CorsConfig.ParseCorsIdempotent: the idempotence holds only when the first parsed origin does not start with `[`. `ReparseBracket` and `ReparseBracketOrigin` show why: without that condition the property fails.
- The authentication, authorization, batch-loading and query-guard logic of the repository is not part of this model. None of that code is in the file modelled here.
