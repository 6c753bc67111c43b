# Cyndaron `Util` helpers in Dafny

This project models the pure helpers of Cyndaron's static `Util` class
(`src/Util.php`). It covers password and token generation, domain and
no-reply address extraction from the request's host, slugs, the start of the
next quarter, the mapping from upload file names to URLs, and the headers for
a spreadsheet download. Six of these eight helpers read something from their
surroundings (`slug` and `spreadsheetHeadersForFilename` read only their
argument). Here those inputs are parameters:

- the request's `HTTP_HOST` header is the `host` argument (a missing header
  counts as the empty string);
- `PUB_DIR` is the `pubDir` argument, and `UPLOAD_DIR` is `pubDir + "/uploads"`;
- `date('Y')` and `date('m')` are the `year` and `month` arguments;
- the results of `random_int(0, 28)` are the `draws` sequence, one per loop
  iteration, and the result of `random_bytes` is the `bytes` sequence.

Two modules:

- `Builtins` (`builtins.dfy`) models the PHP library functions these helpers
  call. `strtolower` works on ASCII letters. `strtr` and `str_replace` with a
  one-character search string become `ReplaceChar`. `str_replace` with an empty
  replacement becomes `RemoveAll`, a left-to-right scan that does not rescan,
  and `RemoveEach` applies a list of search strings in order. `dirname` follows
  PHP's Unix algorithm: strip trailing slashes, then the last component, then
  the slashes before it. `bin2hex` is paired with its inverse `hex2bin`.
- `Util` (`util.dfy`) models the class itself. `generatePassword`, and its
  call with the default length, are methods with a loop, as in the source. The
  other helpers are functions with contracts, most of them with lemmas.

Two facts about the code that the model keeps:

- `PASSWORD_CHARACTERS` has 29 characters: 12 lower-case letters, 13
  upper-case letters and 4 digits.
- `generateToken` fails for a length below 1, because `random_bytes` throws.
  `GenerateToken` returns `Err` then.

Some behaviour of the code as written is easy to miss. The model states it:

- `getDomain` applies each search string once, in order, and never rescans.
  So a `"www."` can appear again when text on both sides of a removed
  occurrence joins up. `GetDomain("wwwwww..")` is `"www."`, so `getDomain` is
  not idempotent. See `GetDomainKeepsRejoinedPrefix`.
- The parent of `UPLOAD_DIR` is `dirname(UPLOAD_DIR)`. This is `PUB_DIR` with
  its trailing slashes removed, or `"/"` if nothing is left. With an empty
  `PUB_DIR`, the URL therefore loses its leading slash (`FilenameToUrlAtRoot`).

## Model

| member | source | states |
|---|---|---|
| `Builtins.ToLower` | src/Util.php:70 | strtolower keeps the length of the string |
| `Builtins.ToLowerPointwise` | src/Util.php:70 | strtolower maps each character independently: A-Z to a-z, every other character unchanged |
| `Builtins.ReplaceChar` | src/Util.php:70-72 | replacing one character by another keeps the length |
| `Builtins.ReplaceCharPointwise` | src/Util.php:162 | each position holds `to` where the input held `from`, and otherwise the input's character |
| `Builtins.ReplaceCharRemoves` | src/Util.php:162 | after the replacement, the searched character no longer occurs |
| `Builtins.RemoveAll` | src/Util.php:59 | str_replace with an empty replacement never makes the subject longer |
| `Builtins.RemoveAllFirstMatch` | src/Util.php:59 | when the first occurrence of a non-empty search string starts at `i`, the result is the subject's first `i` characters followed by the removal applied to what comes after that occurrence |
| `Builtins.RemoveAllFirstMatchStep` | src/Util.php:59 | the same equation when the first occurrence starts after position 0: the first character is kept in front of what the rest of the subject gives |
| `Builtins.RemoveAllIntroducesNothing` | src/Util.php:59 | the result is a sub-multiset of the subject: removal adds no character |
| `Builtins.RemoveAllCharGone` | src/Util.php:59 | removing a one-character search string leaves no occurrence of that character |
| `Builtins.RemoveAllAbsent` | src/Util.php:59 | a subject that does not contain the search string comes back unchanged |
| `Builtins.RemoveEach` | src/Util.php:59 | removing a list of search strings in turn never makes the subject longer |
| `Builtins.RemoveEachLast` | src/Util.php:59 | the last search string in the list is removed last, from what the earlier ones left |
| `Builtins.RemoveEachAbsent` | src/Util.php:59 | a subject that contains none of the search strings comes back unchanged |
| `Builtins.StripTrailingSlashes` | src/Util.php:131 | the result is the longest prefix of the path that does not end in a slash, and only slashes were dropped |
| `Builtins.StripTrailingName` | src/Util.php:131 | the result is the longest prefix of the path that is empty or ends in a slash, and only non-slash characters were dropped |
| `Builtins.Dirname` | src/Util.php:131 | dirname is never longer than its argument and is non-empty for a non-empty path |
| `Builtins.StripTrailingNameOfComponent` | src/Util.php:131 | stripping the last component of `dir/name` leaves `dir/` |
| `Builtins.DirnameOfChild` | src/Util.php:131 | dirname of `dir/name` is `dir` without its trailing slashes, or `/` if nothing is left |
| `Builtins.HexDigitRoundTrip` | src/Util.php:54 | a nibble and its lower-case hex digit convert into each other |
| `Builtins.Bin2Hex` | src/Util.php:54 | bin2hex gives two characters per byte |
| `Builtins.Hex2Bin` | src/Util.php:54 | decoding gives one byte per two hex digits |
| `Builtins.Bin2HexIsLowerHex` | src/Util.php:54 | bin2hex output is an even-length string over `[0-9a-f]` |
| `Builtins.Bin2HexRoundTrip` | src/Util.php:54 | decoding bin2hex output gives back the bytes |
| `Builtins.Hex2BinRoundTrip` | src/Util.php:54 | every even-length lower-case hex string is bin2hex of its decoding, so bin2hex is a bijection onto these strings |
| `Util.GeneratePassword` | src/Util.php:40-50 | the password has `max(length, 0)` characters; character c is `PASSWORD_CHARACTERS[draws[c]]`, so every character is in the alphabet |
| `Util.GenerateDefaultPassword` | src/Util.php:40-50 | without a length the password has the default 10 characters, character c being `PASSWORD_CHARACTERS[draws[c]]` |
| `Util.PasswordReachable` | src/Util.php:36-49 | every string over the alphabet is the password for some sequence of draws |
| `Util.PasswordAlphabetDistinct` | src/Util.php:36-38 | the alphabet has 29 pairwise distinct characters |
| `Util.PasswordAlphabetUnambiguous` | src/Util.php:36-38 | none of `0 O o 1 I i l 2 Z 5 S b 6 g 9` is in the alphabet |
| `Util.GenerateToken` | src/Util.php:52-55 | for a length of 1 or more, the token has `2 * length` lower-case hex digits and decodes to the random bytes; below 1, it is an error |
| `Util.TokenInjective` | src/Util.php:52-55 | different byte strings give different tokens |
| `Util.GetDomain` | src/Util.php:57-60 | the domain is never longer than the host and contains no `/`, because `/` is the last string removed |
| `Util.GetDomainIntroducesNothing` | src/Util.php:59 | every character of the domain comes from the host |
| `Util.GetDomainOfPlainHost` | src/Util.php:59 | a host with no `/` and no `www.` is returned unchanged |
| `Util.GetDomainExample` | src/Util.php:57-60 | the host `www.example.com` gives the domain `example.com` |
| `Util.GetDomainExampleWithScheme` | src/Util.php:57-60 | the host `https://example.com/` gives the domain `example.com`: the scheme and the trailing slash are removed and the text between them is kept |
| `Util.GetDomainKeepsRejoinedPrefix` | src/Util.php:59 | `wwwwww..` gives `www.`, so one pass can leave a `www.` and getDomain is not idempotent |
| `Util.GetNoreplyAddress` | src/Util.php:62-66 | the address is `noreply@` followed by the domain; it contains no `/` and is at most 8 characters longer than the host |
| `Util.Slug` | src/Util.php:68-73 | slug keeps the length and maps each character on its own: a space to `-`, otherwise lower-cased |
| `Util.SlugCharacters` | src/Util.php:68-73 | a slug has no space and no upper-case letter; spaces become `-`, upper-case letters become lower-case, and every other character (including `-`) passes through unchanged |
| `Util.SlugIdempotent` | src/Util.php:68-73 | slugging a slug changes nothing |
| `Util.SlugExamples` | src/Util.php:68-73 | `A  B` gives `a--b` and the empty string gives the empty string |
| `Util.StartOfNextQuarter` | src/Util.php:100-124 | the result is always the first day of a month |
| `Util.Quarter` | src/Util.php:104 | for months 1..12 the quarter is in 1..4, and quarter q holds months 3q-2..3q |
| `Util.StartOfNextQuarterByQuarter` | src/Util.php:106-122 | quarters 1-3 give day 1 of month 3q+1 in the same year; quarter 4 gives January 1 of the next year |
| `Util.StartOfNextQuarterIsNext` | src/Util.php:102-122 | the result is a quarter start; it is after every day of the current month and 1 to 3 months after the current month; it is the earliest quarter start after the current month |
| `Util.StartOfNextQuarterExamples` | src/Util.php:100-124 | February 2024 gives 2024-04-01 and November 2024 gives 2025-01-01 |
| `Util.UploadDir` | src/Util.php:34 | `UPLOAD_DIR` is `PUB_DIR/uploads`: its dirname is `PUB_DIR` without its trailing slashes, or `/` if nothing is left |
| `Util.FilenameToUrl` | src/Util.php:127-136 | a filename that does not start with `UPLOAD_DIR` is returned unchanged; one that does loses exactly as many leading characters as `P` has, where `P` is `PUB_DIR` without its trailing slashes, or `/` if nothing is left |
| `Util.FilenameToUrlSpec` | src/Util.php:127-136 | a file outside the upload directory is returned unchanged; a file inside it loses only a prefix; when `PUB_DIR` is non-empty and has no trailing slash, the result is the filename after `PUB_DIR`, starting with `/uploads` |
| `Util.FilenameToUrlExamples` | src/Util.php:127-136 | with `PUB_DIR` `/var/app`, `/var/app/uploads/img/a.png` gives `/uploads/img/a.png` and `/tmp/other.png` is returned unchanged |
| `Util.FilenameToUrlAtRoot` | src/Util.php:127-136 | with an empty `PUB_DIR` the result is the filename without its first character, starting with `uploads` |
| `Util.SpreadsheetHeadersForFilename` | src/Util.php:160-168 | the keys are exactly `content-type`, `content-disposition` and `cache-control`; the content type is the OOXML spreadsheet type with UTF-8 and cache-control is `max-age=0` |
| `Util.SpreadsheetDispositionQuoted` | src/Util.php:162-165 | the disposition is `attachment;filename="` + name + `"`, where name is as long as the filename, has every `"` turned into `'`, and keeps every other character; the only `"` in the value are the two around the name |

## Left out

- `createDir`, `ensureDirectoryExists` and `deleteFile` (src/Util.php:75-98, 138-158) are not modelled. They are file-system I/O (`file_exists`, `is_dir`, `mkdir`, `unlink`) plus changes to the process `umask`.
- The randomness of `random_int` and `random_bytes` is not modelled. Their results are parameters. Uniformity, entropy, and failure of the system's random source are outside the model.
- `StartOfNextQuarter` returns only the year, month and day. `DateTimeImmutable::createFromFormat` without a reset modifier also takes the time of day from the clock; that time and the time zone are not modelled.
- `Slug` lower-cases ASCII letters only. Locale-dependent `strtolower` behaviour for other bytes is not modelled.
- `SpreadsheetHeadersForFilename` returns a map. The insertion order of PHP's array is not kept.
- Strings are sequences of characters, not bytes. `strtolower`, `str_replace` and `bin2hex` act on bytes in PHP; the two views agree on ASCII text.
- GeneratePassword: Dafny has no default arguments. The call without a length, which uses the default 10 (src/Util.php:40), is the separate method `GenerateDefaultPassword`.
- GetNoreplyAddress: `static::getDomain()` (src/Util.php:64) uses late static binding, so a subclass could substitute its own `getDomain`. The model always uses `Util`'s `GetDomain`.
- Reading `$_SERVER['HTTP_HOST']` when the header is missing is modelled only as an empty host string. PHP's warning in that case is not modelled.
