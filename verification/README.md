# Matrix identifiers: a verified model

This project models, in Dafny, the identifier handling of a Matrix homeserver
(Synapse) as its type tests pin it down. It covers four parts.

- **User IDs** `@localpart:domain` and **room aliases** `#localpart:domain`.
  - `from_string` checks the sigil and cuts the rest at its first `:`.
  - `to_string` formats the two parts.
  - `is_valid` is a non-raising check: the text parses and the domain is an acceptable server name.
  - `==` compares the two parts.
- **`map_username_to_mxid_localpart(name, case_sensitive)`** is a byte pipeline over the UTF-8 encoding of the name.
  - Pass 1 handles case. By default `A`-`Z` become `a`-`z`; other letters are escaped in pass 2. With `case_sensitive`, `A`-`Z` and `_` become `_` plus the lower-case form.
  - Pass 2 escapes every byte outside `[a-z0-9._/-]` as `=xx`.
  - Pass 3 turns a leading `_` into `=5f`.
  - Beside it stands a code-point-at-a-time reference description, proved equal to it.
- **`MXCUri`** content references `mxc://server_name/media_id`: the constructor, `to_string` and `from_str`. `None` is modelled as `Option.None`.

Failures that the Python code raises (`SynapseError`, `ValueError`) are `Err` values of a `Result` type. Each error variant names the rule that was broken.

Files:
- `results.dfy`: `Option` and `Result`.
- `strings.dfy`: the first occurrence of a character.
- `identifiers.dfy`: user IDs and room aliases.
- `utf8.dfy`: the UTF-8 encoder and its decoder.
- `username_mapping.dfy`: the mapping and its properties.
- `username_reversibility.dfy`: injectivity of the case-sensitive mapping.
- `username_mapping_examples.dfy`: the tested names.
- `mxc.dfy`: content references.

Decisions where the tests leave room:

- **The `_` in case-sensitive mode.** Only the test's value `"t_e_s_t__1234"` fits the rule that `_` itself is doubled, as the Matrix "mapping from other character sets" does. The model follows the test. Keeping `_` unchanged would give `"t_e_s_t_1234"`, which the test rules out.
- **The leading `_` rule.** It applies to the mapped output, not to the first input character. With `case_sensitive`, a name starting with an upper-case letter or with `_` therefore begins `=5f`. `MapUsernameLeadingUnderscore` states the `_` case.
- **Parsing and the domain.** Parsing cuts at the first `:`, so the localpart never holds one and the domain may (`host:port`).
- **Empty parts.** Parsing does not reject an empty localpart or domain; `is_valid` rejects an empty domain (`"@alice:"`). A rule that rejects an empty localpart at construction is not exercised by the tests and is not modelled.
- **Server-name check.** The test for room aliases needs `,` to be refused. User IDs and room aliases share one implementation (the base class `DomainSpecificString`), so both use the same check: non-empty with no `,`.

## Model

| member | source | states |
|---|---|---|
| Identifiers.Split | tests/test_types.py:22-39 | Parsing succeeds exactly when the text starts with the sigil and a `:` follows. Empty text, a missing sigil and a missing separator each give their own error. On success the localpart holds no `:` and the parts format back to exactly the input. |
| Identifiers.SplitFormat | tests/test_types.py:22-47 | Parsing a formatted identifier gives back its parts exactly when the localpart holds no `:`. |
| Identifiers.FormatInjective | tests/test_types.py:49-55 | Two identifiers of one kind with `:`-free localparts have the same text exactly when they have the same parts. |
| Identifiers.UserID.FromString | tests/test_types.py:22-39 | `from_string` on user IDs succeeds exactly when the text starts with `@` and a `:` follows; otherwise it gives the matching one of the three rejections. On success it gives a value whose text is the input. |
| Identifiers.UserIdRoundTrip | tests/test_types.py:22-47 | `from_string(to_string(u)) == u` exactly when the localpart holds no `:`. |
| Identifiers.UserIdValidity | tests/test_types.py:41-42 | For a `:`-free localpart, `is_valid` of the text holds exactly when the domain is non-empty and holds no `,`. |
| Identifiers.UserIdValidTexts | tests/test_types.py:41-42 | `is_valid(s)` holds exactly when `s` is the text of a user ID with a `:`-free localpart and an acceptable domain. |
| Identifiers.UserIdEquality | tests/test_types.py:49-55 | For user IDs with `:`-free localparts (every parsed value), equality of the values coincides with equality of their texts. |
| Identifiers.UserIdParseExample | tests/test_types.py:22-26 | `"@1234abcd:test"` parses to (`"1234abcd"`, `"test"`). |
| Identifiers.UserIdRejections | tests/test_types.py:29-42 | `""`, `"alice:example.com"` and `"@alice.example.com"` are rejected with the matching error; `is_valid("@alice:")` is false. |
| Identifiers.UserIdBuildExample | tests/test_types.py:44-47 | (`"5678efgh"`, `"my.domain"`) formats as `"@5678efgh:my.domain"`. |
| Identifiers.UserIdCompareExample | tests/test_types.py:49-55 | Two parses of `"@userA:my.domain"` are equal; the parse of `"@userB:my.domain"` differs. |
| Identifiers.RoomAlias.FromString | tests/test_types.py:58-63 | `from_string` on room aliases succeeds exactly when the text starts with `#` and a `:` follows; otherwise it gives the matching one of the three rejections. On success it gives a value whose text is the input. |
| Identifiers.RoomAliasRoundTrip | tests/test_types.py:58-69 | `from_string(to_string(a)) == a` exactly when the localpart holds no `:`. |
| Identifiers.RoomAliasValidity | tests/test_types.py:71-73 | For a `:`-free localpart, `is_valid` of the text holds exactly when the domain is non-empty and holds no `,`. |
| Identifiers.RoomAliasValidTexts | tests/test_types.py:71-73 | `is_valid(s)` holds exactly when `s` is the text of a room alias with a `:`-free localpart and an acceptable domain. |
| Identifiers.RoomAliasParseExample | tests/test_types.py:59-63 | `"#channel:test"` parses to (`"channel"`, `"test"`). |
| Identifiers.RoomAliasBuildExample | tests/test_types.py:66-69 | (`"channel"`, `"my.domain"`) formats as `"#channel:my.domain"`. |
| Identifiers.RoomAliasCommaExample | tests/test_types.py:71-73 | `is_valid("#test:domain,test")` is false. |
| Utf8.EncodeChar | tests/test_types.py:95-98 | The UTF-8 encoding of a code point has 1 to 4 bytes. The length depends on the code point's range, the lead byte announces the length, and the other bytes are continuation bytes, so a multi-byte encoding has no ASCII byte. |
| Utf8.DecodeEncodeChar | tests/test_types.py:95-98 | Decoding the encoding of a code point gives the code point back. |
| Utf8.EncodeInjective | tests/test_types.py:95-98 | Two texts have the same UTF-8 encoding exactly when they are equal. |
| Utf8.EncodeCharExample | tests/test_types.py:97 | `ê` encodes as `C3 AA`. |
| UsernameMapping.FoldCase | tests/test_types.py:80-85 | After the case pass no upper-case ASCII letter is left; without `case_sensitive` the length is unchanged, and with it the length at most doubles. |
| UsernameMapping.EscapeBytes | tests/test_types.py:87-90 | After the escaping pass every byte is in `[a-z0-9._=/-]`, and the length at most triples. |
| UsernameMapping.MapUsernameBytes | tests/test_types.py:95-98 | On bytes: the result uses only `[a-z0-9._=/-]`, does not start with `_`, and is at least as long as the input. |
| UsernameMapping.MapUsername | tests/test_types.py:76-98 | On text: the result uses only `[a-z0-9._=/-]`, does not start with `_`, and is at least as long as the name. |
| UsernameMapping.MapUsernameByCodePoint | tests/test_types.py:76-98 | The byte pipeline equals the code-point description. Each code point is kept, lower-cased, marked with `_`, or written `=xx` per UTF-8 byte; then a leading `_` becomes `=5f`. |
| UsernameMapping.MapUsernameFixedPoints | tests/test_types.py:77-78 | A name maps to itself exactly when each of its characters is in `[a-z0-9./-]` (or is `_` without `case_sensitive`) and it does not start with `_`. |
| UsernameMapping.MapUsernameIgnoresCase | tests/test_types.py:80-81 | Without `case_sensitive`, a name and its ASCII lower-case form map alike. |
| UsernameMapping.MapUsernameLeadingUnderscore | tests/test_types.py:92-93 | A leading `_` becomes `=5f` (followed by `_` with `case_sensitive`); the rest is mapped piece by piece, so inner `_` are kept. |
| UsernameReversibility.MapUsernameBytesInjective | tests/test_types.py:82-85 | With `case_sensitive`, two byte strings map alike exactly when they are equal. |
| UsernameReversibility.MapUsernameInjective | tests/test_types.py:82-85 | With `case_sensitive`, two names map alike exactly when they are equal, so the mapping preserves case reversibly. |
| UsernameMappingExamples.PassThroughExample | tests/test_types.py:77-78 | `"test1234"` maps to itself. |
| UsernameMappingExamples.UpperCaseExample | tests/test_types.py:80-81 | `"tEST_1234"` maps to `"test_1234"`. |
| UsernameMappingExamples.CaseSensitiveExample | tests/test_types.py:82-85 | With `case_sensitive`, `"tEST_1234"` maps to `"t_e_s_t__1234"`. |
| UsernameMappingExamples.SymbolsExample | tests/test_types.py:87-90 | `"test=$?_1234"` maps to `"test=3d=24=3f_1234"`. |
| UsernameMappingExamples.LeadingUnderscoreExample | tests/test_types.py:92-93 | `"_test_1234"` maps to `"=5ftest_1234"`. |
| UsernameMappingExamples.NonAsciiExample | tests/test_types.py:95-98 | `"têst"` maps to `"t=c3=aast"`, given as text or as its UTF-8 bytes. |
| Mxc.MXCUri.FromStr | tests/test_types.py:139-176 | `None` and a missing `mxc://` are rejected; a success is a well-formed reference whose text is exactly the input. |
| Mxc.MxcRoundTrip | tests/test_types.py:102-137 | `from_str(to_string(u)) == u` exactly when both parts are non-empty and hold no `/`. |
| Mxc.MxcAcceptedTexts | tests/test_types.py:118-176 | A text is accepted exactly when it is the text of a well-formed reference, and it then parses to that reference. |
| Mxc.MxcToStringInjective | tests/test_types.py:102-137 | Well-formed references have equal texts exactly when they are equal. |
| Mxc.MxcDecompose | tests/test_types.py:139-170 | For an `mxc://` text with a path, the outcome in full: empty server name, empty media ID, a further `/`, or success with the two parts. |
| Mxc.MxcNoPath | tests/test_types.py:163-164 | An `mxc://` text with no `/` after the server name is rejected as having no path. |
| Mxc.MxcFormatExample1 | tests/test_types.py:105-106 | (`"example.com"`, `"84n8493hnfsjkbcu"`) formats as `"mxc://example.com/84n8493hnfsjkbcu"`. |
| Mxc.MxcFormatExample2 | tests/test_types.py:108-113 | (`"192.168.1.17:8008"`, `"bajkad89h31ausdhoqqasd"`) formats with its port kept. |
| Mxc.MxcFormatExample3 | tests/test_types.py:115-116 | (`"123.123.123.123"`, `"000000000000"`) formats as `"mxc://123.123.123.123/000000000000"`. |
| Mxc.MxcParseExample1 | tests/test_types.py:119-121 | `"mxc://example.com/g12789g890ajksjk"` parses to its two parts. |
| Mxc.MxcParseExample2 | tests/test_types.py:123-125 | A server name with a port, `"localhost:8448"`, is kept whole. |
| Mxc.MxcParseExample3 | tests/test_types.py:127-129 | A bracketed IPv6 server name, `"[::1]"`, is kept whole. |
| Mxc.MxcParseExample4 | tests/test_types.py:131-133 | `"mxc://123.123.123.123:32112/12893y81283781023"` parses to its two parts. |
| Mxc.MxcParseExample5 | tests/test_types.py:135-137 | `"mxc://domain/abcdefg"` parses to (`"domain"`, `"abcdefg"`). |
| Mxc.MxcRejectionExample1 | tests/test_types.py:145-146 | `"mxc:///example.com/abcdef"` is rejected: empty server name. |
| Mxc.MxcRejectionExample2 | tests/test_types.py:148-149 | `"mxc://example.com//abcdef"` is rejected: a further `/`. |
| Mxc.MxcRejectionExample3 | tests/test_types.py:151-152 | `"mxc://example.com/abcdef/"` is rejected: a further `/`. |
| Mxc.MxcRejectionExample4 | tests/test_types.py:154-158 | `"mxc://example.com/abc/abcdef"` is rejected: a further `/`. |
| Mxc.MxcRejectionExample5 | tests/test_types.py:160-161 | `"mxc:///abcdef"` is rejected: empty server name. |
| Mxc.MxcRejectionExample6 | tests/test_types.py:166-167 | `"mxc://example.com/"` is rejected: empty media ID. |
| Mxc.MxcRejectionExample7 | tests/test_types.py:169-170 | `"mxc:///"` is rejected: empty server name. |
| Mxc.MxcRejectionExamplesNoPath | tests/test_types.py:163-164 | `"mxc://example.com"` is rejected: no path. |
| Mxc.MxcRejectionExamplesScheme | tests/test_types.py:142-176 | `"http://example.com/abcdef"` and `""` are rejected for their scheme, and `None` is rejected. |

## Left out

- `hs.is_mine(...)` (tests/test_types.py:27, 64): this asks the homeserver fixture whether a domain is its own. It is configuration, not identifier handling.
- The exception classes and their messages: a failure is an error variant without text, and `is_valid` discards it.
- Full server-name validation: host names, IP literals and ports. The model checks only what the tests assert: non-empty, no `,`.
- Python's text-or-bytes input: text goes through `MapUsername`, which UTF-8-encodes it, and bytes go through `MapUsernameBytes`. Invalid UTF-8 needs no path, because the byte pipeline never decodes its input.
- A decoder for mapped localparts: the system has none. The inverse passes in `username_reversibility.dfy` exist only to prove injectivity.
- Construction-time validation: the constructors of `UserID`, `RoomAlias` and `MXCUri` check nothing, as the tests use them.
