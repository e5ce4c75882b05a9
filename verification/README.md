# Firmador core in Dafny

Firmador connects a web browser to a smartcard. A small local HTTP server
(port 9795) answers the browser's script. A desktop application lists the
certificates on the card that can make qualified signatures and lets the
user choose one. This project models the parts of that program that make
decisions and proves properties about them:

- **Base64** (`base64_decode`). A bit-accumulator decoder over the standard
  alphabet of RFC 4648 section 4. It stops silently at the first character
  outside the alphabet, and `=` counts as outside. `Base64.Decode` is the loop
  as written. It is proved equal to `Decoding`, which is the whole bytes of the
  6-bit values of the longest prefix of symbols. Standard padded encoding is
  defined bit by bit, and the decoder is proved to invert it. `BitString`
  holds the big-endian arithmetic that links the integer accumulator to a
  sequence of bits.
- **Uuid** (`uuid`). Sixteen values from `rand()` are printed with `%02x` in
  the 8-4-4-4-12 layout. The version nibble is forced to 4 and the variant
  byte into 0x80..0xBE. The sixteen values are an input. `r[i]` is the value
  the i-th format argument received; which `rand()` call produced it is not
  said, since C++ leaves argument order unspecified. A parser for the layout is
  the partner of the formatter.
- **Request** (`request_callback`). A pure function from url and method to
  the status, body and headers of the response. The handler's four
  overwriting `if` statements are compared with a routing table.
- **Pin** (`pin_callback` in pin.cpp). The warning built from the gnutls flag
  bits, the dialog text, the rejection of a cancelled or blank PIN, and the
  truncated, NUL-terminated copy into the caller's buffer.
- **Firmador** (`Firmador::OnInit` and the static `pin_callback` of
  firmador.cpp). OnInit takes an environment value that holds every gnutls
  status, token url, object list and dialog answer. It returns the outcome
  (an `exit()` status, or the return value) and the calls made, in order.

`Wrappers` holds `Option` and the `byte` type shared by the modules.

Some behaviour of the code worth knowing:

- `/` and `/nexu-info` answer every method with 200, never 405.
- Their body is non-empty, but the handler never sets a content type for them. So the handler asks libmicrohttpd to add a `Content-Type` header whose value is empty.
- POST on `/rest/certificates` and `/rest/sign` is still a stub. It returns 200 with an empty body, so no Content-Type header is added, although the JSON type is selected.
- No route ever answers 405.
- OnInit shows the choice dialog even when there is no candidate. An empty list is not treated as an error.
- Every error OnInit checks (initialisation, provider, enumeration, private-key initialisation) calls `exit()` on the spot. The statuses of the object import, the certificate import, the key-usage and name lookups and the url export are ignored. A run that exits releases no imported object (`Firmador.ExitReleasesNothing`), so it leaks every object it imported.

## Model

| member | source | states |
|---|---|---|
| Base64.Value | src/base64.cpp:26-32 | every character gets a value in -1..63; -1 marks a character outside the table |
| Base64.ValueIsAlphabetPosition | src/base64.cpp:26-32 | a character's value is its position in `A–Z a–z 0–9 + /`, and it is -1 exactly for the characters not in that alphabet |
| Base64.ValueOfAlphabet | src/base64.cpp:28-31 | the i-th alphabet character is given value i, for each i in 0..63 |
| Base64.SymbolPrefixLength | src/base64.cpp:34-35 | the loop reads a run of symbols from the front and stops at the first non-symbol, if there is one |
| Base64.Octets | src/base64.cpp:38-40 | a bit string yields one byte per whole 8 bits; a trailing partial byte is never emitted |
| Base64.OctetsAt | src/base64.cpp:39 | byte i is the value of bits 8i..8i+7 |
| BitString.ToNatAppend | src/base64.cpp:36 | shifting the accumulator left by 6 and adding a value is appending that value's 6 bits |
| BitString.ByteWindow | src/base64.cpp:39 | `(val >> valb) & 0xFF` is the 8 bits just above the lowest `valb` bits of the accumulator |
| Base64.AppendSymbol | src/base64.cpp:35-37 | accepting one more symbol appends its six bits, and the accumulator becomes `val * 64 + value` |
| Base64.EmitStep | src/base64.cpp:37-41 | after adding 6 bits, emitting a byte exactly when `valb >= 0` keeps `out` equal to the whole bytes read, with `valb` the count of pending bits minus 8 |
| Base64.DecodeStep | src/base64.cpp:34-41 | one iteration of the loop keeps the accumulator, `valb` and the output in step with the symbols read so far |
| Base64.Decode | src/base64.cpp:24-45 | the loop returns the whole bytes of the 6-bit values of the longest symbol prefix of its input |
| Base64.DecodeStopsAtNonSymbol | src/base64.cpp:34-35 | whatever follows a non-symbol is ignored |
| Base64.DecodeStopsAtPadding | src/base64.cpp:34-35 | '=' ends decoding like any other non-symbol: nothing after it is read |
| Base64.DecodeAllSymbols | src/base64.cpp:33-41 | an all-symbol input of k characters yields floor(6k/8) bytes (so empty input yields nothing), byte i being bits 8i..8i+7 of the concatenated values |
| Base64.DecodePrefix | src/base64.cpp:34-42 | the decoding of `s` is a prefix of the decoding of `s + t` |
| Base64.DecodeEncode | src/base64.cpp:28-44 | decoding the padded RFC 4648 encoding of any byte string gives that byte string back |
| Uuid.Hex2 | src/uuid.cpp:31-33 | `%02x` prints two lowercase hex digits whose values give the byte back |
| Uuid.HexDigitsOnly | src/uuid.cpp:31-33 | printed bytes consist of lowercase hex digits only |
| Uuid.UnhexHex | src/uuid.cpp:31-33 | reading the printed digits back gives the bytes that were printed |
| Uuid.HexUnhex | src/uuid.cpp:31-33 | any readable digit string is the printing of what it reads as |
| Uuid.Format | src/uuid.cpp:28-33 | the format string yields exactly 36 characters |
| Uuid.DigitsOfFormat | src/uuid.cpp:31-33 | removing the four hyphens leaves the sixteen bytes printed back to back |
| Uuid.ParseFormat | src/uuid.cpp:31-40 | a formatted identifier parses back to its sixteen bytes |
| Uuid.FormatParse | src/uuid.cpp:31-40 | every string that parses is the formatting of the bytes it parses to |
| Uuid.FormatWellFormed | src/uuid.cpp:32-33 | positions 8, 13, 18 and 23 are '-' and every other position is a lowercase hex digit |
| Uuid.Field | src/uuid.cpp:34-39 | every argument is one byte; the version argument has high nibble 4 and the variant argument lies in 0x80..0xBE |
| Uuid.VersionAndVariant | src/uuid.cpp:36-37 | position 14 is '4', position 19 is one of 8, 9, a, b, and positions 19-20 are never "bf" |
| Uuid.VariantNeverBF | src/uuid.cpp:37 | `rand() % 0x3F + 0x80` never gives 0xBF, whatever rand() returned |
| Uuid.Generate | src/uuid.cpp:27-43 | the identifier has the 8-4-4-4-12 layout, version digit 4, a variant digit in 8..b, not "bf", and reads back as exactly the bytes printed |
| Request.Respond | src/request.cpp:37-118 | status is 200 or 500; the four CORS/Connection headers are always requested; a Content-Type header is requested if and only if the body is non-empty, and then it comes first, so there are five headers with a body and four without; status, body and content type follow the routing table |
| Request.HasHeaderAppend | src/request.cpp:107-117 | a header is among the added headers exactly when it is among the optional Content-Type header or among the four fixed ones |
| Request.SucceedsExactly | src/request.cpp:37-103 | 200 is answered exactly to `/`, `/nexu-info`, `/nexu.js` with any method and to OPTIONS or POST on the two REST paths; everything else, prefixes included, gets 500 |
| Request.ScriptPostsToBridge | src/request.cpp:55-64 | the served script posts to `//localhost:9795/rest/certificates` |
| Pin.WarningDeterminesFlags | src/pin.cpp:36-50 | two flag words give the same warning if and only if they agree on the final-try, count-low and wrong-PIN bits; no other bit matters |
| Pin.PromptShowsLabel | src/pin.cpp:52-54 | the dialog text is the warning, the fixed lead, the token label and a colon, and the label can be read back from it |
| Pin.CStrLen | src/pin.cpp:69-71 | the length is the position of the first NUL, or the whole length when there is none |
| Pin.Store | src/pin.cpp:69-73 | the buffer then holds, as a C string, the first min(pin_max - 1, strlen) bytes of the value, which is a prefix of the value and all of it when it fits; the bytes after the NUL are untouched |
| Pin.PinCallback | src/pin.cpp:29-79 | returns 0 exactly when the dialog is confirmed with a non-blank value, and then stores it; otherwise returns -1 with the buffer untouched, showing the blank-PIN message only for a confirmed blank value |
| Firmador.EnumerateFrom | src/firmador.cpp:121-139 | indices are requested in order; every reply before the last adds its url in index order; the last ends the loop, normally on "not available" and with its status otherwise |
| Firmador.Imported | src/firmador.cpp:141-153 | one object list is recorded per listed token, and a token whose import wrote a list gets that list |
| Firmador.FailedImportRepeatsList | src/firmador.cpp:141-152 | an import that writes nothing records the previous token's list again |
| Firmador.TokenCalls | src/firmador.cpp:122-125 | the enumeration requests token 0, 1, 2, ... in that order and nothing else |
| Firmador.CallbackOnRequest | src/firmador.cpp:32-82 | for each PIN request made during an import, the installed callback shows that request's dialog and ends the process with status 1 exactly when the request is cancelled or blank |
| Firmador.LoginFrom | src/firmador.cpp:56-80 | the dialogs of one import's login are its PIN requests, in order, up to and including the first refused one; the login ends the process exactly when that dialog is the last one shown, and shows every request when none is refused |
| Firmador.LoginRefusedExactly | src/firmador.cpp:56-80 | a login ends the process if and only if one of its PIN requests is cancelled or blank |
| Firmador.ImportFrom | src/firmador.cpp:146-153 | the loop imports the urls in order, each once, calls nothing but imports and PIN dialogs, and only a refused login stops it before the last url |
| Firmador.ImportFromCalls | src/firmador.cpp:146-153 | the loop's calls are its turns back to back up to where it stopped: each import of the k-th url is directly followed by the dialogs of the k-th login, in order |
| Firmador.ImportFromStops | src/firmador.cpp:146-153 | the loop stops right after the first import whose login is refused, and at no other import |
| Firmador.ImportsRefusedExactly | src/firmador.cpp:146-153 | the import loop ends the process if and only if the login of some url is refused |
| Firmador.LoggedInExactly | src/firmador.cpp:86-153 | every login is accepted if and only if the import loop runs to its end |
| Firmador.CandidateIgnoresOtherBits | src/firmador.cpp:167-171 | only the non-repudiation bit of the key usage decides whether an object is a candidate |
| Firmador.Filter | src/firmador.cpp:159-213 | a token contributes at most as many candidates as it has objects |
| Firmador.FilterKeepsCandidates | src/firmador.cpp:171-211 | an object is kept if and only if its key usage has the non-repudiation bit |
| Firmador.FilterAppend | src/firmador.cpp:157-214 | filtering commutes with concatenation, so candidates keep their token-major, object-minor order |
| Firmador.CandidatesAreFilteredObjects | src/firmador.cpp:155-214 | the nested loops produce the non-repudiation filter of all objects flattened token by token, so there are at most as many candidates as objects |
| Firmador.Choices | src/firmador.cpp:216-220 | the choice list has one entry per candidate, its object url, in candidate order |
| Firmador.ReleasesExactly | src/firmador.cpp:270-274 | the release loop releases every recorded (token, position) pair, nothing else, and no pair twice |
| Firmador.OnInit | src/firmador.cpp:84-283 | a run starts with the library initialisation, never exits with status 0, and returns false when it returns |
| Firmador.AfterListing | src/firmador.cpp:141-282 | nothing after the enumeration requests a token; a refused login during the imports ends the process with 1 |
| Firmador.Choosing | src/firmador.cpp:216-282 | the part after the imports requests no token, imports nothing and shows no PIN dialog; it initialises a key if and only if a certificate was chosen; when it exits it has released nothing |
| Firmador.TokensRequestedInOrder | src/firmador.cpp:121-139 | right after set-up the tokens are requested by index 0, 1, 2, ..., and no token beyond the one that ended the enumeration is ever requested |
| Firmador.OnInitOutcome | src/firmador.cpp:84-240 | the first failing step decides the exit status; a refused PIN during an import and a cancelled choice exit with 1; a run returns if and only if every step succeeded and every login was accepted |
| Firmador.CancelledChoiceStops | src/firmador.cpp:146-240 | a private key is initialised if and only if the token list was read, every login was accepted and a certificate was chosen |
| Firmador.ChoicesOffered | src/firmador.cpp:155-224 | once every login is accepted, the dialog offers the urls of the non-repudiation objects of all tokens, in token-major order |
| Firmador.ImportsFollowTokens | src/firmador.cpp:121-153 | the import loop's calls follow the enumeration directly in the run |
| Firmador.RunImports | src/firmador.cpp:146-153 | the run imports the listed urls in order, once each, up to where the import loop stopped, and nothing else |
| Firmador.AllTokensImported | src/firmador.cpp:146-153 | when every login is accepted, the run imports every listed token once, in token order |
| Firmador.RefusedLoginStops | src/firmador.cpp:84-274 | when the k-th import's login is the first one refused, the run imports tokens 0 to k, exits with 1, never offers the choice and releases nothing |
| Firmador.ReturningRun | src/firmador.cpp:233-280 | a returning run ends with the release loop and the library's release, and nothing before the loop releases an object |
| Firmador.ReleasesEachObjectOnce | src/firmador.cpp:270-274 | a returning run releases every recorded (token, position) entry exactly once, and nothing else |
| Firmador.RepeatedListReleasedTwice | src/firmador.cpp:141-274 | after a failed import, the recorded list equals the previous token's, and a returning run releases its objects under both tokens |
| Firmador.ExitReleasesNothing | src/firmador.cpp:92-240 | a run that ends in exit() has released no object |
| Firmador.StaticPinCallback | src/firmador.cpp:32-82 | same dialog text as pin.cpp; a cancelled or blank PIN ends the process with status 1; an accepted PIN returns 0 and is stored exactly as pin.cpp stores it |

## Left out

- Randomness. `srand(time(NULL))` and `rand()` are replaced by the sixteen values as input. Uniqueness of identifiers is not a property of the code.
- gnutls, PKCS #11 and X.509. Statuses, token urls, object lists and key-usage words are inputs. Certificate import, distinguished-name lookups, object labels and url export are foreign library behaviour. The calls that only read certificates are not recorded in the run.
- The import status. `gnutls_pkcs11_obj_list_import_url2`'s status is never checked, so it is not an input. An import either writes a list or writes nothing (`None`); which one, and the list, are the environment's reply.
- The PIN requests gnutls makes during an import. Whether a login asks for a PIN, how often and with which flags are inputs (`Env.logins`). The PIN an accepted dialog returns goes to gnutls, whose login is outside the model.
- The chosen index. `GetSelection()` is only printed, so a run records that a choice was made, not which one.
- Console output. The messages printed to stdout and stderr are not modelled.
- Dialogs and message boxes. Their answers are inputs: `Pin.Entry`, and `Option<nat>` for the choice. The blank-PIN message box is a flag in the reply.
- UTF-8 conversions. `wxConvUTF8` in both directions is left out. A confirmed PIN arrives as the bytes `mb_str` would give, or as no buffer at all.
- The commented-out key import and signing in OnInit. They are dead code.
- Freeing `obj_list` at the end of OnInit. It touches only the last list, and memory management is outside the model.
- The provider path. Its choice by operating system is configuration.
- The HTTP server plumbing. Building, queueing and destroying the libmicrohttpd response is left out, and so is `src/servidorweb.cpp`.
- Base64.Decode: `val` is an unbounded natural rather than a C `int` that can overflow on long inputs. Only its low bits reach the output.
- Base64.Decode: characters are Dafny characters rather than `char` values used as table indices. The undefined behaviour of negative `char` indices is not reproduced: every character outside the alphabet is invalid.
- Pin.Store: `int len` is not narrowed from `size_t`. The model assumes values shorter than 2^31 bytes, where the narrowing changes nothing.
- Pin.PinCallback: requires `pin_max >= 1`. With `pin_max == 0`, `pin_max - 1` wraps around and the C code writes outside the buffer. gnutls never passes an empty buffer.
- Firmador.OnInit: the code passed to `exit()` is kept as an integer. The operating system truncates an exit status to its low 8 bits, so the negative gnutls statuses reach the parent process as different numbers.
- Request.Respond: the header list is the headers the handler asks libmicrohttpd to add to the response, not the headers the library sends. Whether the library accepts an empty header value is not modelled.
- Firmador.ReleasesEachObjectOnce: counts releases per (token, position) entry, not per object handle. After a failed import the same handles are recorded under two tokens and released twice (`Firmador.RepeatedListReleasedTwice`); handle identity is not modelled beyond that.
