# spl3_random — a Dafny model of the weapon catalogue and autocomplete rules

The Discord bot `spl3_random` picks a random Splatoon 3 weapon. It caches
the weapon list from the stat.ink API. It filters that list by weapon type,
sub weapon and special weapon. It offers autocomplete choices for those three
filters, and it shows the chosen weapon with an image from the Splatoon wiki
(Inkipedia). This project models the data rules behind that command and proves
what they promise:

- `weapon_api.dfy` (module `WeaponApi`, from `data/weapon_api.py`):
  - the weapon record (a JSON object: `key`, multilingual fields, nested objects);
  - the fill-once cache `WeaponDataManager.cache`, with the network outcome
    passed in as a `FetchOutcome`;
  - the filtered random pick;
  - `_get_unique_items`, modelled as a loop that fills a dict, specified by a
    function over an explicit insertion-ordered table;
  - localized-name lookup;
  - the wiki image URL.
- `url_encoding.dfy` (module `UrlEncoding`): what `urllib.parse.quote` does
  to the image file name. It encodes the name as UTF-8 (RFC 3629). Then it
  percent-encodes (section 2.1 of RFC 3986) every byte that is neither
  unreserved (section 2.3 of RFC 3986) nor `/`, which `quote` keeps by
  default. Its partner `Unquote` decodes the escapes and then the UTF-8, and
  the round trip is proved.
- `spl3_random.dfy` (module `Spl3Random`, from `cogs/spl3_random.py`):
  - the autocomplete filter: a substring match on the ja_JP name, order kept,
    at most 25 choices;
  - the choice between an attached image and the wiki URL for the embed.
- `wrappers.dfy` (module `Wrappers`): `Option`, the model's Python `None`.

## Model

| member | source | states |
|---|---|---|
| `WeaponApi.WeaponDataManager.constructor` | data/weapon_api.py:11-12 | A new manager starts with an empty cache. |
| `WeaponApi.WeaponDataManager.FetchWeapons` | data/weapon_api.py:14-30 | A non-empty cache is kept unchanged and no request is made. Otherwise one request is made. After it the cache holds the body of a status-200 response, and it is empty after any other status or an exception. |
| `WeaponApi.FieldKey` | data/weapon_api.py:53-57 | `w.get(field, {}).get('key')` is a key exactly when the weapon has the nested `field` object and that object has a `key`, and then it is that key. |
| `WeaponApi.KeepWithKey` | data/weapon_api.py:53-57 | The list comprehension keeps exactly the weapons whose nested `field` object has the given `key`. It never grows the list. |
| `WeaponApi.WeaponDataManager.GetRandomWeapon` | data/weapon_api.py:46-61 | An empty cache yields no weapon. A returned weapon is in the cache and passes every filter that is neither `None` nor `""`: its type/sub/special `key` equals the filter. No weapon is returned exactly when no cached weapon passes all of them. |
| `WeaponApi.Eligible` | data/weapon_api.py:67-68 | The item is the weapon's nested `field` object itself. It is taken only when that object is present and carries a `key`, and that key is the one the weapon is filed under. |
| `WeaponApi.Insert` | data/weapon_api.py:67-69 | `items[item['key']] = item` keeps the dict valid. An ineligible weapon leaves the dict unchanged. Otherwise the entry under the item's key becomes the item and every other entry stays. A new key goes to the end of the insertion order, and a key already present keeps its place. |
| `WeaponApi.Collect` | data/weapon_api.py:65-69 | The dict built by the loop stays a valid insertion-ordered dict: each key appears once in the order, the order lists exactly the entries, and each entry is filed under its own `key`. |
| `WeaponApi.Values` | data/weapon_api.py:70 | `list(items.values())` has one record per key, in insertion order, and each record is the entry filed under its key. |
| `WeaponApi.UniqueItems` | data/weapon_api.py:63-70 | Every returned item has a `key`, and the keys are pairwise distinct. |
| `WeaponApi.CollectKeys` | data/weapon_api.py:66-69 | A key is in the dict exactly when some cached weapon's `field` object carries it. |
| `WeaponApi.UniqueItemsKeys` | data/weapon_api.py:63-70 | A key occurs among the unique items exactly when some cached weapon files an item under it. With distinctness, each such key appears exactly once. |
| `WeaponApi.UniqueItemsLastWins` | data/weapon_api.py:69 | For a repeated key, the item kept is the `field` object of the last weapon carrying that key. |
| `WeaponApi.UniqueItemsOrder` | data/weapon_api.py:65-70 | Items are ordered by the first occurrence of their keys: every weapon carrying a later item's key comes after some weapon carrying each earlier item's key. |
| `WeaponApi.UniqueItemsFromCache` | data/weapon_api.py:66-69 | Every unique item is the `field` object of some cached weapon. |
| `WeaponApi.WeaponDataManager.GetUniqueItems` | data/weapon_api.py:63-70 | The loop over the cache, which fills a dict, returns the unique items of the cache for `field`. |
| `WeaponApi.WeaponDataManager.GetWeaponTypes` | data/weapon_api.py:72-74 | Returns the unique items under `type`. |
| `WeaponApi.WeaponDataManager.GetSubWeapons` | data/weapon_api.py:76-78 | Returns the unique items under `sub`. |
| `WeaponApi.WeaponDataManager.GetSpecialWeapons` | data/weapon_api.py:80-82 | Returns the unique items under `special`. |
| `WeaponApi.TextOr` | data/weapon_api.py:89 | `d.get(key, {}).get(lang, default)` is the text for that field and language when both are present, and `default` otherwise. |
| `WeaponApi.LocalizedName` | data/weapon_api.py:84-89 | Returns `data[key][lang]` when the object is present and has that field and language. Otherwise it returns `"Unknown"`, whether the object is absent, empty, or lacks the field or the language. |
| `WeaponApi.ReplaceChar` | data/weapon_api.py:96 | `str.replace` of one character keeps the length, and changes exactly the occurrences of that character. |
| `WeaponApi.FileStem` | data/weapon_api.py:95-96 | The file stem is the en_US name (or `Unknown` when it is missing), character by character, with every space and every `/` turned into `_`. So it has the name's length and holds no space and no `/`. |
| `WeaponApi.ImageTail` | data/weapon_api.py:99 | The encoded file name is `S3_Weapon_Main_` + the encoded stem + `.png`: only the stem is escaped. It holds only unreserved characters and `%XX` escapes, so it has no space and no `/`. Decoding it gives back `S3_Weapon_Main_` + stem + `.png`. |
| `WeaponApi.ImageUrl` | data/weapon_api.py:92-100 | The URL is the redirect base `https://splatoonwiki.org/wiki/Special:Redirect/file/` followed by the encoded file name, with the properties stated for `ImageTail`. |
| `UrlEncoding.Quote` | data/weapon_api.py:99 | `quote` keeps every safe character (unreserved or `/`) and writes every other one as three characters per UTF-8 byte. So the output is 1 to 12 times as long as the input. It is exactly as long as the input when every character is safe, and then it is the input itself. |
| `UrlEncoding.EncodeChar` | data/weapon_api.py:99 | The UTF-8 encoding of a character is 1 to 4 bytes. It is a single byte exactly for ASCII, and that byte is the character. |
| `UrlEncoding.Utf8RoundTrip` | data/weapon_api.py:99 | Strict UTF-8 decoding of the encoding of a string gives back the string. |
| `UrlEncoding.PercentDecodeQuote` | data/weapon_api.py:99 | Percent-decoding the output of `quote` gives the UTF-8 bytes of its input. |
| `UrlEncoding.UnquoteQuote` | data/weapon_api.py:99 | `unquote(quote(s)) == s` for every string. |
| `UrlEncoding.QuoteIsEscapedText` | data/weapon_api.py:99 | `quote` of a text without `/` holds only unreserved characters and upper-case `%XX` escapes. |
| `UrlEncoding.EscapedTextChars` | data/weapon_api.py:99 | Every character of such escaped text is unreserved or `%`. |
| `UrlEncoding.QuoteAppend` | data/weapon_api.py:99 | `quote` works character by character, so it distributes over concatenation. |
| `UrlEncoding.QuoteUnreserved` | data/weapon_api.py:99 | `quote` leaves text made of unreserved characters unchanged. |
| `Spl3Random.Contains` | cogs/spl3_random.py:25 | `current in name` is substring containment: a contained text is never longer than the name, and every prefix of the name (the empty text included) is contained. |
| `Spl3Random.AllChoices` | cogs/spl3_random.py:23-26 | The choices built by the loop are at most one per item, and every choice's name contains the typed text. |
| `Spl3Random.ShownIndices` | cogs/spl3_random.py:23-25 | The indices of the items whose ja_JP name contains the typed text, strictly increasing, with no shown item missing. |
| `Spl3Random.AllChoicesAreShownItems` | cogs/spl3_random.py:22-26 | Before the cap, the choices are exactly the shown items in their order. The a-th choice has the a-th shown item's `key` as value and its ja_JP name as name. |
| `Spl3Random.EmptyTextShowsAll` | cogs/spl3_random.py:25 | An empty typed text matches every item, so the uncapped choices are all the items in order. |
| `Spl3Random.Take` | cogs/spl3_random.py:27 | The slice `[:n]` is a prefix of length `min(n, len)`. |
| `Spl3Random.FilterChoices` | cogs/spl3_random.py:22-27 | The loop and slice return the first `min(25, m)` of the `m` matching choices. There are at most 25 choices, and every choice's name contains the typed text. |
| `Spl3Random.Spl3RandomCog.constructor` | cogs/spl3_random.py:9-11 | The cog owns a fresh data manager whose cache is empty. |
| `Spl3Random.Spl3RandomCog.AutocompleteHelper` | cogs/spl3_random.py:18-27 | The helper first makes sure the weapon list is cached: a filled cache stays as it was, and an empty one takes the body of a status-200 response or stays empty. It then returns the first 25 choices over the unique items of the chosen catalogue. |
| `Spl3Random.KeyText` | cogs/spl3_random.py:70-71 | `f"{key}"` is the key itself when the weapon has one, and `None` otherwise. |
| `Spl3Random.EmbedImage` | cogs/spl3_random.py:66-71 | A file is attached exactly when non-empty image bytes were obtained. The file is named `<key>.png` (`None.png` without a key), and the embed then points at `attachment://` + that name. Otherwise the embed keeps the original image URL. |

## Left out

- Network I/O. The HTTP GET of `fetch_weapons` becomes the `FetchOutcome` parameter, so headers, the session and the API URL request are left out. `fetch_image_data` (data/weapon_api.py:32-44) is left out: the image bytes reach `EmbedImage` as a parameter. Concurrency between overlapping `await`s is also left out.
- Logging with `print`.
- `random.choice`: `GetRandomWeapon` promises only some element of the filtered list, not a uniform distribution.
- Malformed JSON. Records are assumed to have the stat.ink shape: nested fields are objects when present, and keys and names are strings. The `AttributeError` and `TypeError` raised on other shapes are not modelled. A JSON `key` that is present but `null` is treated as absent.
- Python strings may hold lone surrogates, which make `quote` raise `UnicodeEncodeError`. Dafny characters are Unicode scalar values, so this case does not arise in the model.
- `UrlEncoding.Unquote` is a strict decoder. Python's `unquote` replaces invalid UTF-8 with U+FFFD instead; the two agree on everything `quote` produces.
- The calls `get_image_url(key)` at cogs/spl3_random.py:63 and :84 hand a key string where a weapon object is expected. `ImageUrl` is modelled over a weapon record and those call sites are not modelled. As written, `weapon.get('name', {})` (data/weapon_api.py:95) then raises `AttributeError` on that string (or on `None`), so in the program a found weapon never reaches cogs/spl3_random.py:64-74; `EmbedImage` models those lines as they would run once the call passes the weapon.
- Discord plumbing: command registration and decorators, `cog_load`, `setup`, `_create_weapon_embed` and `ctx.send` (cogs/spl3_random.py:13-16, 38-64, 73-101). The three autocomplete callbacks (cogs/spl3_random.py:29-36) are represented by the `Catalogue` argument of `AutocompleteHelper`.
- main.py: token loading, bot start-up and the event loop.
