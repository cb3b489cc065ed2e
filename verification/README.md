# t411 client core, modelled in Dafny

A model of the request logic in `Naji\T411\Client`, a PHP client for the
T411 torrent site that scrapes its HTML pages. What the class does besides
calling cURL and PCRE is small. It serialises GET parameters into a query
string. It fills in the default search filters. It pairs the links and seeder
cells found on a result page into search results. It splits a raw response
into header and body. It decides what `downloadTorrent` does with the
download button found on a detail page.

PHP strings are byte strings. Here they are `Bytes`, a sequence of chars
below 256. A PHP array with string keys is a sequence of `Param` key/value
pairs with distinct keys, in insertion order (`Params`). PHP's `urlencode`,
`urldecode`, `trim` and `intval` are written out (`UrlEncoding`,
`PhpStrings`).

Every PCRE match the source makes over a page is an input to the model:
the torrent links with their titles, the seeder cells, the download button
and the `filename="…"` header. The one pattern the model evaluates itself is
the case-insensitive `users/login` test on the button's link.

Modules, one per concern of `src/Naji/T411/Client.php`:

- `Query`: `queryString`, plus a reader (`ParseQuery`) that splits on `&` and on the first `=`. The reader is used to state the round trip.
- `Search`: parameter defaulting in `search`, the request URL, and how results are assembled.
- `Transport`: the header/body split in `sendRequest`.
- `Download`: the decision in `downloadTorrent`, and a run of it over a list of detail pages the server returns.

Two places where the model follows the code as written:

- Result assembly. A result past the last seeder cell reads `$seeders[$i]`
  beyond the end, which gives null (with a notice), and `intval(null)` is 0.
  So such a result gets 0 seeders, and `CollectTorrents` has no precondition
  on the two lengths.
- Download retry. The `@param string $path The path to save the .torrent`
  docblock of `downloadTorrent` (src/Naji/T411/Client.php:152) says the file
  goes under `$path`, but the code's retry drops the path. Both versions
  are modelled (see Findings), and the corrected one is `Download.Run`.

## Model

| member | source | states |
|---|---|---|
| Query.QueryString | src/Naji/T411/Client.php:99-106 | The loop's result (start at `?`, append `k=urlencode(v)&` per entry, drop the last byte) is the query string by definition: empty for no parameters, otherwise `?` followed by one `key=urlencode(value)` segment per entry, in insertion order, separated by `&` |
| Query.QueryOfShape | src/Naji/T411/Client.php:101-105 | The query string is empty exactly when there are no parameters; otherwise it starts with `?` and never ends with `&` |
| Query.ParseQueryOf | src/Naji/T411/Client.php:101-105 | Reading the query string back gives every key verbatim and every value decoded, in order, whenever no key contains `&` or `=` |
| Query.VerbatimKeySplits | src/Naji/T411/Client.php:103 | Keys are not encoded: the key `a&b` is written as is and reads back as two parameters `a` and `b` |
| UrlEncoding.UrlEncode | src/Naji/T411/Client.php:103 | Each byte becomes one to three bytes, and every output byte is a letter, digit, `-`, `_`, `.`, `+` or `%` |
| UrlEncoding.DecodeEncode | src/Naji/T411/Client.php:103 | `urldecode(urlencode(s)) == s` for every byte string |
| UrlEncoding.EncodedHasNoDelimiters | src/Naji/T411/Client.php:103 | An encoded value never contains `&`, `=` or `?` |
| Params.Lookup | src/Naji/T411/Client.php:125-130 | Reading `$params[k]`: present exactly when some entry has key `k`, and then that entry's value |
| Params.Assign | src/Naji/T411/Client.php:126-130 | `$params[k] = v`: afterwards `k` maps to `v` and every other key maps as before; a new key is appended at the end, an existing key is updated in place with all other entries unchanged; keys stay distinct |
| Search.Normalize | src/Naji/T411/Client.php:125-130 | Keys stay distinct; every caller's entry keeps its position and value, except that a `search` value gets `@name ` in front; exactly the missing keys are appended, in the order `cat` (`210`), `subcat` (`433`), `search` (`@name ` alone) |
| Search.NormalizeReads | src/Naji/T411/Client.php:125-130 | `cat` reads as the caller's value or `210` when absent; `subcat` as the caller's value or `433` when absent; `search` as `@name ` followed by the caller's text, or by nothing when absent; every other key reads as the caller gave it |
| Search.TextOnlyQuery | src/Naji/T411/Client.php:125-132 | A search given only its text sends `?search=` with the encoded `@name ` plus text, then `&cat=210&subcat=433` |
| Search.DefaultSearchQuery | src/Naji/T411/Client.php:122-132 | A call without arguments sends `?search=%40name+&cat=210&subcat=433` |
| Search.SearchUrlReadsBack | src/Naji/T411/Client.php:132 | The search URL is the base URL, `/torrents/search/` and a query string that starts with `?` and reads back as the normalised parameters |
| Search.CollectTorrents | src/Naji/T411/Client.php:137-145 | No link matches give no results. Otherwise there is one result per link match, in page order: its URL is the link, its name is the trimmed title, and its seeder count is `intval` of the seeder cell at the same position, or 0 when no cell is at that position |
| PhpStrings.TrimLeftShape | src/Naji/T411/Client.php:141 | Stripping the front keeps a suffix of the input, removes only space, tab, LF, CR, NUL or vertical tab, and stops at the first other byte |
| PhpStrings.TrimRightShape | src/Naji/T411/Client.php:141 | Stripping the back keeps a prefix of the input, removes only such bytes, and stops at the last other byte |
| PhpStrings.TrimShape | src/Naji/T411/Client.php:141 | `trim` returns a contiguous slice of its input, and everything cut from either side is space, tab, LF, CR, NUL or vertical tab |
| PhpStrings.TrimTrimmed | src/Naji/T411/Client.php:141 | Neither end of a trimmed title is such a byte |
| PhpStrings.TrimPadding | src/Naji/T411/Client.php:141 | Trimming a title padded with any such bytes on either side gives the title back, the empty title included |
| PhpStrings.TrimIdempotent | src/Naji/T411/Client.php:141 | Trimming twice is trimming once |
| PhpStrings.IntVal | src/Naji/T411/Client.php:141 | `intval` of a string is always within the 64-bit signed range |
| PhpStrings.IntValFormat | src/Naji/T411/Client.php:141 | `intval` reads back every 64-bit integer in decimal, with any leading white space and any trailing text that does not start with a digit, `.`, `e` or `E` |
| PhpStrings.IntValNoDigits | src/Naji/T411/Client.php:141 | A cell holding no digit, such as the empty string, counts as 0 seeders |
| Transport.SplitResponse | src/Naji/T411/Client.php:82-84 | Header followed by body is the whole response; the header is `min(header_size, length)` bytes long; the URL is the effective URL |
| Transport.SplitConcat | src/Naji/T411/Client.php:82-84 | Splitting a header block followed by a body at the header's length returns exactly that header and that body |
| Transport.SplitUnique | src/Naji/T411/Client.php:82-84 | Any header/body division of the response with that header length is the one the split returns |
| ByteStrings.ContainsIgnoreCase | src/Naji/T411/Client.php:161 | The unanchored case-insensitive test holds exactly when the pattern occurs at some offset, ignoring ASCII letter case |
| Download.LoginLinkAnywhere | src/Naji/T411/Client.php:161 | Any link containing `users/login` in any letter case, at any position, counts as the login page |
| Download.DecideAsWritten | src/Naji/T411/Client.php:158-171 | As the code is written: no button means no request and no file; a login link means reconnect and retry the same URL with the path reset to empty; otherwise fetch base URL plus link and save under the caller's path |
| Download.Decide | src/Naji/T411/Client.php:158-171 | As intended: the same three cases, but the retry keeps the caller's path |
| Download.DecisionsDifferOnlyOnRetry | src/Naji/T411/Client.php:161-164 | The two decisions differ exactly when the button is a login link and the caller's path is not empty |
| Download.SaveTo | src/Naji/T411/Client.php:169-172 | The file written is the save directory, `/`, then the matched file name (nothing when unmatched), and its contents are the fetched body, byte for byte |
| Download.RunAsWritten | src/Naji/T411/Client.php:154-175 | Over the pages served in turn: every page before the last one read had a login link, and the number of reconnects is that count. Without a button nothing is saved. With a real link, base URL plus that link is fetched and written under the caller's path only if no reconnect happened, and under the empty path otherwise |
| Download.Run | src/Naji/T411/Client.php:154-175 | The same run with the corrected decision: whenever a file is saved, it is saved under the caller's path, however many reconnects came first |
| Download.RetryOnce | src/Naji/T411/Client.php:161-164 | One expired session and then a real link: both versions reconnect once and fetch the same URL, but the source saves to `/filename` and the corrected version to `path/filename`; the two differ whenever the path is not empty |

## Findings

| source | as written | input that shows it | evidently intended | confidence | as-written member | corrected member |
|---|---|---|---|---|---|---|
| src/Naji/T411/Client.php:164 | After reconnecting, `return $this->downloadTorrent($url);` retries without `$path`, so the path falls back to `''` and the file goes to `'/' . filename` | The first detail page has the button `/users/login/?url=/torrents/5`, the second has `/torrents/download/?id=5`, the path is `/tmp`, and the file name is `x.torrent`. The file is written to `/x.torrent` | The retry passes `$path` along, so the file is written to `/tmp/x.torrent` | high; not executed | Download.RunAsWritten, Download.RetryOnce | Download.Run |

## Left out

- `connect` (src/Naji/T411/Client.php:111-114): a single POST of the login form built by `http_build_query`. Its result is never inspected, so there is nothing to state beyond the call.
- cURL options and execution in `sendRequest` (src/Naji/T411/Client.php:65-80, 85-88): user agent, referer, the 10-second connect timeout, redirects and the cookie jar are transport settings. The raw response, the header size and the effective URL are inputs to `Transport.SplitResponse`. A failed `curl_exec` (which returns false) is not modelled.
- Files: `fopen`/`fwrite`/`fclose` in `downloadTorrent` and the cookie file are I/O. The write is returned as a `Download.Write` value (file name and bytes).
- The PCRE engine behind `preg_match_all`/`preg_match` (lines 134, 136, 158, 169): the matches are inputs. A failing `preg_match_all` (returning false) is not modelled. The `users/login` test on line 161 is modelled, with ASCII case folding, which is what PCRE does outside UTF mode.
- Download.RunAsWritten: the source's recursion has no bound and its termination depends on the server. The model runs over a finite list of detail pages and reports `PagesExhausted` when the list ends. It does not claim the source terminates.
- Params.Lookup: PHP's `isset` is also false for a key whose value is null. Parameter values are byte strings, so null values, and integer values converted to strings, are not modelled.
- PhpStrings.IntVal: does not model the float and exponent forms of a numeric string. For example, `intval("1e3")` is 1000 in PHP 7.1 and later, but the model reads the leading digits only and gives 1. Decimal integers, signs, leading white space and trailing text are modelled, and so is 64-bit saturation for digit strings within the range of a double. A digit string beyond that range (about 309 digits or more) overflows to infinity in PHP, and `intval` then gives 0, while the model still saturates to the 64-bit bound.
- PhpStrings.IntValFormat: the read-back is stated only for trailing text that does not start with `.`, `e` or `E`. PHP 7.1 and later read `"12e3"` as the numeric string 12000, while the model's `IntVal` gives 12, so an exponent suffix is excluded rather than claimed.
- Query.ParseQuery: a reader written for the round-trip property. It is not PHP's `parse_str`, which also decodes keys and interprets brackets.
- The constructor (src/Naji/T411/Client.php:47-53) only stores its four arguments. The base URL is a parameter of every member that uses it.
- The JSON-API variant of the client is not part of this model.
