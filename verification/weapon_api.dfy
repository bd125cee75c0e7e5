/**
 * The weapon catalogue of data/weapon_api.py: a cache of weapon records filled
 * once from the stat.ink weapon API, random selection under key filters, the
 * distinct type/sub/special records, localized-name lookup and the wiki image
 * URL of a weapon.
 *
 * A weapon (and each of its nested type/sub/special objects) is a JSON object.
 * `Record` keeps the parts the code reads: the string `key`, the multilingual
 * fields (`name` -> language -> text) and the nested objects by field name.
 */
module WeaponApi {
  import opened Wrappers
  import opened UrlEncoding

  datatype Record = Record(
    key: Option<string>,
    texts: map<string, map<string, string>>,
    children: map<string, Record>)

  /** The outcome of the one HTTP GET of https://stat.ink/api/v3/weapon (sent
      with the User-Agent "Spl3RandomBot/1.0"): a response with its status and
      decoded JSON body, or an exception (network error, bad JSON). */
  datatype FetchOutcome = Response(status: int, body: seq<Record>) | Failed

  const Unknown := "Unknown"

  // ------------------------------------------------------------ filtering

  /** `w.get(field, {}).get('key')` */
  function FieldKey(w: Record, field: string): (r: Option<string>)
    ensures r.Some? <==> field in w.children && w.children[field].key.Some?
    ensures r.Some? ==> r == w.children[field].key
  {
    if field in w.children then w.children[field].key else None
  }

  /** Python truthiness of an optional filter string: neither None nor "". */
  predicate IsGiven(filter: Option<string>)
  {
    filter.Some? && filter.value != ""
  }

  /** The filter on `field` accepts `w`. */
  predicate Passes(w: Record, field: string, filter: Option<string>)
  {
    IsGiven(filter) ==> FieldKey(w, field) == Some(filter.value)
  }

  predicate MatchesAll(w: Record, weaponType: Option<string>, sub: Option<string>, special: Option<string>)
  {
    Passes(w, "type", weaponType) && Passes(w, "sub", sub) && Passes(w, "special", special)
  }

  /** `[w for w in ws if w.get(field, {}).get('key') == value]` */
  function KeepWithKey(ws: seq<Record>, field: string, value: string): (r: seq<Record>)
    ensures |r| <= |ws|
    ensures forall w :: w in r <==> w in ws && FieldKey(w, field) == Some(value)
  {
    if ws == [] then []
    else if FieldKey(ws[0], field) == Some(value) then [ws[0]] + KeepWithKey(ws[1..], field, value)
    else KeepWithKey(ws[1..], field, value)
  }

  // --------------------------------------------------------- unique items

  /** `w.get(field)` when it is a non-empty object carrying a `key`. */
  function Eligible(w: Record, field: string): (item: Option<Record>)
    ensures item.Some? ==> item.value.key.Some? && FieldKey(w, field) == item.value.key
    ensures item.Some? ==> field in w.children && item.value == w.children[field]
    ensures item.None? ==> FieldKey(w, field).None?
  {
    if field in w.children && w.children[field].key.Some? then Some(w.children[field]) else None
  }

  /** A Python dict from keys to records: its insertion order and its entries. */
  datatype Table = Table(order: seq<string>, entries: map<string, Record>)

  /** The dict invariant: each key once in the order, the order lists exactly
      the entries, and every entry is filed under its own key. */
  ghost predicate TableValid(t: Table)
  {
    (forall a, b :: 0 <= a < b < |t.order| ==> t.order[a] != t.order[b]) &&
    (forall k :: k in t.entries <==> k in t.order) &&
    (forall k :: k in t.entries ==> t.entries[k].key == Some(k))
  }

  /** `items[item['key']] = item` for an eligible `item`: the entry under its
      key becomes `item`, other entries stay, a new key goes to the end of the
      order and a known key keeps its place. */
  function Insert(t: Table, w: Record, field: string): (r: Table)
    ensures TableValid(t) ==> TableValid(r)
    ensures t.order <= r.order && |r.order| <= |t.order| + 1
    ensures Eligible(w, field).None? ==> r == t
    ensures Eligible(w, field).Some? ==>
      var item := Eligible(w, field).value;
      var k := item.key.value;
      k in r.entries && r.entries[k] == item &&
      (forall k' :: k' != k ==> (k' in r.entries <==> k' in t.entries)) &&
      (forall k' :: k' != k && k' in t.entries ==> r.entries[k'] == t.entries[k']) &&
      (k in t.entries ==> r.order == t.order) &&
      (k !in t.entries ==> r.order == t.order + [k])
  {
    match Eligible(w, field)
    case None => t
    case Some(item) =>
      var k := item.key.value;
      Table(if k in t.entries then t.order else t.order + [k], t.entries[k := item])
  }

  /** The dict `_get_unique_items` has built after the weapons `ws`. */
  function Collect(ws: seq<Record>, field: string): (t: Table)
    ensures TableValid(t)
    decreases |ws|
  {
    if ws == [] then Table([], map[])
    else Insert(Collect(ws[..|ws| - 1], field), ws[|ws| - 1], field)
  }

  /** `list(items.values())`: the entries in insertion order. */
  function Values(t: Table): (r: seq<Record>)
    requires TableValid(t)
    ensures |r| == |t.order|
    ensures forall a :: 0 <= a < |r| ==> r[a] == t.entries[t.order[a]] && r[a].key == Some(t.order[a])
  {
    seq(|t.order|, a requires 0 <= a < |t.order| => t.entries[t.order[a]])
  }

  /** The result of `_get_unique_items(field)` on the cache `ws`. */
  function UniqueItems(ws: seq<Record>, field: string): (r: seq<Record>)
    ensures forall a :: 0 <= a < |r| ==> r[a].key.Some?
    ensures forall a, b :: 0 <= a < b < |r| ==> r[a].key != r[b].key
  {
    Values(Collect(ws, field))
  }

  lemma CollectStep(ws: seq<Record>, field: string)
    requires ws != []
    ensures Collect(ws, field) == Insert(Collect(ws[..|ws| - 1], field), ws[|ws| - 1], field)
    ensures forall j :: 0 <= j < |ws| - 1 ==> ws[..|ws| - 1][j] == ws[j]
  {
  }

  /** A key filed by some weapon is in the dict. */
  lemma {:induction false} CollectHasKey(ws: seq<Record>, field: string, j: int)
    requires 0 <= j < |ws| && FieldKey(ws[j], field).Some?
    ensures FieldKey(ws[j], field).value in Collect(ws, field).entries
    decreases |ws|
  {
    var n := |ws| - 1;
    CollectStep(ws, field);
    if j < n {
      CollectHasKey(ws[..n], field, j);
    }
  }

  /** A key missing from the dict built after the first `m` weapons is carried by none of them. */
  lemma AbsentKeyNowhere(ws: seq<Record>, field: string, k: string, m: int)
    requires 0 <= m <= |ws| && k !in Collect(ws[..m], field).entries
    ensures forall j :: 0 <= j < m ==> FieldKey(ws[j], field) != Some(k)
  {
    forall j | 0 <= j < m && FieldKey(ws[j], field).Some?
      ensures FieldKey(ws[j], field) != Some(k)
    {
      assert ws[..m][j] == ws[j];
      CollectHasKey(ws[..m], field, j);
    }
  }

  /** Every key in the dict is carried by some weapon; `j` is one. */
  lemma {:induction false} KeyWitness(ws: seq<Record>, field: string, k: string) returns (j: int)
    requires k in Collect(ws, field).entries
    ensures 0 <= j < |ws| && FieldKey(ws[j], field) == Some(k)
    decreases |ws|
  {
    var n := |ws| - 1;
    CollectStep(ws, field);
    if FieldKey(ws[n], field) == Some(k) {
      j := n;
    } else {
      j := KeyWitness(ws[..n], field, k);
    }
  }

  /** A key is in the dict exactly when some weapon files an item under it. */
  lemma CollectKeys(ws: seq<Record>, field: string, k: string)
    ensures k in Collect(ws, field).entries <==> exists j :: 0 <= j < |ws| && FieldKey(ws[j], field) == Some(k)
  {
    if k in Collect(ws, field).entries {
      var j := KeyWitness(ws, field, k);
    } else {
      assert ws[..|ws|] == ws;
      AbsentKeyNowhere(ws, field, k, |ws|);
    }
  }

  /** The dict holds, for each key, the item of the last weapon filed under it. */
  lemma {:induction false} CollectLastWins(ws: seq<Record>, field: string, j: int)
    requires 0 <= j < |ws| && FieldKey(ws[j], field).Some?
    requires forall j' :: j < j' < |ws| ==> FieldKey(ws[j'], field) != FieldKey(ws[j], field)
    ensures Eligible(ws[j], field).Some?
    ensures FieldKey(ws[j], field).value in Collect(ws, field).entries
    ensures Collect(ws, field).entries[FieldKey(ws[j], field).value] == Eligible(ws[j], field).value
    decreases |ws|
  {
    var n := |ws| - 1;
    CollectStep(ws, field);
    if j < n {
      CollectLastWins(ws[..n], field, j);
    }
  }

  /** The last weapon carrying the key of weapon `j`. */
  lemma {:induction false} LastOccurrence(ws: seq<Record>, field: string, k: string, j: int) returns (jl: int)
    requires 0 <= j < |ws| && FieldKey(ws[j], field) == Some(k)
    ensures j <= jl < |ws| && FieldKey(ws[jl], field) == Some(k)
    ensures forall j' :: jl < j' < |ws| ==> FieldKey(ws[j'], field) != Some(k)
    decreases |ws| - j
  {
    if j' :| j < j' < |ws| && FieldKey(ws[j'], field) == Some(k) {
      jl := LastOccurrence(ws, field, k, j');
    } else {
      jl := j;
    }
  }

  /** Keys stand in the order of their first occurrence: a weapon carrying the
      `b`-th key is preceded by a weapon `ja` carrying the `a`-th key, `a < b`. */
  lemma {:induction false} FirstOrderWitness(ws: seq<Record>, field: string, a: int, b: int, jb: int) returns (ja: int)
    requires 0 <= a < b < |Collect(ws, field).order|
    requires 0 <= jb < |ws| && FieldKey(ws[jb], field) == Some(Collect(ws, field).order[b])
    ensures 0 <= ja < jb && FieldKey(ws[ja], field) == Some(Collect(ws, field).order[a])
    decreases |ws|, 1
  {
    CollectStep(ws, field);
    if b < |Collect(ws[..|ws| - 1], field).order| {
      ja := FirstOrderKnownKey(ws, field, a, b, jb);
    } else {
      ja := FirstOrderNewKey(ws, field, a, b, jb);
    }
  }

  /** The case of `FirstOrderWitness` where both keys were in the dict before the last weapon. */
  lemma {:induction false} FirstOrderKnownKey(ws: seq<Record>, field: string, a: int, b: int, jb: int) returns (ja: int)
    requires ws != [] && 0 <= a < b < |Collect(ws[..|ws| - 1], field).order|
    requires 0 <= jb < |ws| && FieldKey(ws[jb], field) == Some(Collect(ws[..|ws| - 1], field).order[b])
    ensures 0 <= ja < jb && FieldKey(ws[ja], field) == Some(Collect(ws[..|ws| - 1], field).order[a])
    decreases |ws|, 0
  {
    var n := |ws| - 1;
    var t' := Collect(ws[..n], field);
    var jb' := jb;
    if jb == n {
      assert t'.order[b] in t'.entries;
      jb' := KeyWitness(ws[..n], field, t'.order[b]);
    } else {
      assert ws[..n][jb] == ws[jb];
    }
    ja := FirstOrderWitness(ws[..n], field, a, b, jb');
    assert ws[..n][ja] == ws[ja];
  }

  /** The case of `FirstOrderWitness` where the last weapon brought in the `b`-th key. */
  lemma FirstOrderNewKey(ws: seq<Record>, field: string, a: int, b: int, jb: int) returns (ja: int)
    requires ws != [] && 0 <= a < b < |Collect(ws, field).order|
    requires |Collect(ws[..|ws| - 1], field).order| <= b
    requires 0 <= jb < |ws| && FieldKey(ws[jb], field) == Some(Collect(ws, field).order[b])
    ensures 0 <= ja < jb && FieldKey(ws[ja], field) == Some(Collect(ws, field).order[a])
  {
    var n := |ws| - 1;
    var t, t' := Collect(ws, field), Collect(ws[..n], field);
    CollectStep(ws, field);
    var kb := t.order[b];
    assert t.order == t'.order + [kb] && kb !in t'.entries;
    AbsentKeyNowhere(ws, field, kb, n);
    assert t'.order[a] == t.order[a] && t'.order[a] in t'.entries;
    ja := KeyWitness(ws[..n], field, t'.order[a]);
    assert ws[..n][ja] == ws[ja];
  }

  /** Every key filed by some weapon appears among the unique items, and only those. */
  lemma UniqueItemsKeys(ws: seq<Record>, field: string, k: string)
    ensures (exists a :: 0 <= a < |UniqueItems(ws, field)| && UniqueItems(ws, field)[a].key == Some(k))
        <==> (exists j :: 0 <= j < |ws| && FieldKey(ws[j], field) == Some(k))
  {
    var t := Collect(ws, field);
    var r := UniqueItems(ws, field);
    CollectKeys(ws, field, k);
    if k in t.entries {
      var a :| 0 <= a < |t.order| && t.order[a] == k;
      assert r[a].key == Some(k);
    }
  }

  /** A repeated key keeps the record of its last occurrence. */
  lemma UniqueItemsLastWins(ws: seq<Record>, field: string, a: int, j: int)
    requires 0 <= a < |UniqueItems(ws, field)|
    requires 0 <= j < |ws| && FieldKey(ws[j], field) == UniqueItems(ws, field)[a].key
    requires forall j' :: j < j' < |ws| ==> FieldKey(ws[j'], field) != FieldKey(ws[j], field)
    ensures Eligible(ws[j], field) == Some(UniqueItems(ws, field)[a])
  {
    CollectLastWins(ws, field, j);
  }

  /** The unique items are ordered by the first occurrence of their keys. */
  lemma UniqueItemsOrder(ws: seq<Record>, field: string, a: int, b: int, jb: int)
    requires 0 <= a < b < |UniqueItems(ws, field)|
    requires 0 <= jb < |ws| && FieldKey(ws[jb], field) == UniqueItems(ws, field)[b].key
    ensures exists ja :: 0 <= ja < jb && FieldKey(ws[ja], field) == UniqueItems(ws, field)[a].key
  {
    var ja := FirstOrderWitness(ws, field, a, b, jb);
  }

  /** Every unique item is the `field` object of some cached weapon. */
  lemma UniqueItemsFromCache(ws: seq<Record>, field: string, a: int)
    requires 0 <= a < |UniqueItems(ws, field)|
    ensures exists j :: 0 <= j < |ws| && Eligible(ws[j], field) == Some(UniqueItems(ws, field)[a])
  {
    var t := Collect(ws, field);
    var k := t.order[a];
    var j0 := KeyWitness(ws, field, k);
    var j := LastOccurrence(ws, field, k, j0);
    UniqueItemsLastWins(ws, field, a, j);
  }

  // ------------------------------------------------------ localized names

  /** `d.get(key, {}).get(lang, default)` */
  function TextOr(d: Record, key: string, lang: string, default: string): (s: string)
    ensures key in d.texts && lang in d.texts[key] ==> s == d.texts[key][lang]
    ensures key !in d.texts || lang !in d.texts[key] ==> s == default
  {
    if key in d.texts && lang in d.texts[key] then d.texts[key][lang] else default
  }

  predicate IsEmpty(d: Record)
  {
    d.key.None? && d.texts == map[] && d.children == map[]
  }

  /** `get_localized_name(data, key, lang)`; `None` stands for a missing or null object. */
  function LocalizedName(data: Option<Record>, key: string := "name", lang: string := "ja_JP"): (s: string)
    ensures data.Some? && key in data.value.texts && lang in data.value.texts[key] ==> s == data.value.texts[key][lang]
    ensures data.None? || key !in data.value.texts || lang !in data.value.texts[key] ==> s == Unknown
  {
    if data.None? || IsEmpty(data.value) then Unknown
    else TextOr(data.value, key, lang, Unknown)
  }

  // ------------------------------------------------------------ image URL

  const RedirectBase := "https://splatoonwiki.org/wiki/Special:Redirect/file/"
  const FilePrefix := "S3_Weapon_Main_"
  const FileSuffix := ".png"

  /** `s.replace(from, to)` for one character replaced by one character. */
  function ReplaceChar(s: string, from: char, to: char): (r: string)
    ensures |r| == |s|
    ensures forall i :: 0 <= i < |s| ==> r[i] == if s[i] == from then to else s[i]
  {
    if s == [] then [] else [if s[0] == from then to else s[0]] + ReplaceChar(s[1..], from, to)
  }

  /** The English name with spaces and slashes turned into underscores. */
  function FileStem(w: Record): (stem: string)
    ensures var n := TextOr(w, "name", "en_US", Unknown);
      |stem| == |n| && forall i :: 0 <= i < |n| ==> stem[i] == if n[i] == ' ' || n[i] == '/' then '_' else n[i]
    ensures ' ' !in stem && '/' !in stem
  {
    ReplaceChar(ReplaceChar(TextOr(w, "name", "en_US", Unknown), ' ', '_'), '/', '_')
  }

  lemma AffixesUnreserved()
    ensures forall i :: 0 <= i < |FilePrefix| ==> IsUnreserved(FilePrefix[i])
    ensures forall i :: 0 <= i < |FileSuffix| ==> IsUnreserved(FileSuffix[i])
  {
  }

  /** `f"S3_Weapon_Main_{name}.png"` */
  function FileName(w: Record): string
  {
    FilePrefix + FileStem(w) + FileSuffix
  }

  /** The quoted file name is the prefix, the quoted stem and the suffix. */
  lemma QuoteFileName(stem: string)
    ensures Quote(FilePrefix + stem + FileSuffix) == FilePrefix + Quote(stem) + FileSuffix
  {
    AffixesUnreserved();
    QuoteAppend(FilePrefix + stem, FileSuffix);
    QuoteAppend(FilePrefix, stem);
    QuoteUnreserved(FilePrefix);
    QuoteUnreserved(FileSuffix);
  }

  /** The file name holds no '/', so quoting escapes everything but unreserved characters. */
  lemma FileNameHasNoSlash(w: Record)
    ensures '/' !in FileName(w)
  {
    AffixesUnreserved();
    assert '/' !in FilePrefix && '/' !in FileSuffix;
  }

  lemma QuotedFileNameEscaped(w: Record)
    ensures IsEscapedText(Quote(FileName(w))) && ' ' !in Quote(FileName(w)) && '/' !in Quote(FileName(w))
  {
    FileNameHasNoSlash(w);
    QuoteIsEscapedText(FileName(w));
    EscapedTextChars(Quote(FileName(w)));
  }

  lemma QuotedFileNameShape(w: Record)
    ensures var tail := Quote(FileName(w));
      tail == FilePrefix + Quote(FileStem(w)) + FileSuffix &&
      IsEscapedText(tail) && ' ' !in tail && '/' !in tail &&
      Unquote(tail) == Some(FileName(w))
  {
    QuoteFileName(FileStem(w));
    QuotedFileNameEscaped(w);
    UnquoteQuote(FileName(w));
  }

  /** The quoted file name of a weapon, the part of its image URL after the
      redirect base: the prefix and ".png" stay as they are and only the stem is
      escaped; it holds only unreserved characters and "%XX" escapes, and it
      decodes to the file name. */
  function ImageTail(w: Record): (tail: string)
    ensures tail == FilePrefix + Quote(FileStem(w)) + FileSuffix
    ensures IsEscapedText(tail) && ' ' !in tail && '/' !in tail
    ensures Unquote(tail) == Some(FileName(w))
  {
    QuotedFileNameShape(w);
    Quote(FileName(w))
  }

  /** `get_image_url(weapon)`: the redirect base followed by the quoted file name. */
  function ImageUrl(w: Record): (url: string)
    ensures RedirectBase <= url && url[|RedirectBase|..] == ImageTail(w)
  {
    var tail := ImageTail(w);
    assert (RedirectBase + tail)[|RedirectBase|..] == tail;
    RedirectBase + tail
  }

  // -------------------------------------------------------------- manager

  /** `WeaponDataManager`: the weapon list cached in `cache`. */
  class WeaponDataManager {
    var cache: seq<Record>

    constructor ()
      ensures cache == []
    {
      cache := [];
    }

    /** `fetch_weapons`: a non-empty cache is kept and nothing is requested;
        otherwise one request is made with the given outcome, and the cache
        holds the body of a 200 response and is empty after any other status
        or an exception. `requested` tells whether the request was made. */
    method FetchWeapons(outcome: FetchOutcome) returns (requested: bool)
      modifies this
      ensures requested <==> old(cache) == []
      ensures !requested ==> cache == old(cache)
      ensures requested && outcome.Response? && outcome.status == 200 ==> cache == outcome.body
      ensures requested && !(outcome.Response? && outcome.status == 200) ==> cache == []
    {
      if cache != [] {
        return false;
      }
      requested := true;
      match outcome
      case Response(status, body) =>
        if status == 200 {
          cache := body;
        } else {
          cache := [];
        }
      case Failed =>
        cache := [];
    }

    /** `get_random_weapon`: some cached weapon that passes every given filter,
        or `None` exactly when there is none. */
    method GetRandomWeapon(weaponType: Option<string> := None, sub: Option<string> := None,
                           special: Option<string> := None) returns (w: Option<Record>)
      ensures cache == [] ==> w == None
      ensures w.Some? ==> w.value in cache && MatchesAll(w.value, weaponType, sub, special)
      ensures w.None? <==> forall x :: x in cache ==> !MatchesAll(x, weaponType, sub, special)
    {
      if cache == [] {
        return None;
      }
      var candidates := cache;
      if IsGiven(weaponType) {
        candidates := KeepWithKey(candidates, "type", weaponType.value);
      }
      assert forall x :: x in candidates <==> x in cache && Passes(x, "type", weaponType);
      if IsGiven(sub) {
        candidates := KeepWithKey(candidates, "sub", sub.value);
      }
      assert forall x :: x in candidates <==> x in cache && Passes(x, "type", weaponType) && Passes(x, "sub", sub);
      if IsGiven(special) {
        candidates := KeepWithKey(candidates, "special", special.value);
      }
      assert forall x :: x in candidates <==> x in cache && MatchesAll(x, weaponType, sub, special);
      if candidates == [] {
        return None;
      }
      var i :| 0 <= i < |candidates|;
      w := Some(candidates[i]);
    }

    /** `_get_unique_items(field)`: one pass over the cache filling a dict. */
    method GetUniqueItems(field: string) returns (items: seq<Record>)
      ensures items == UniqueItems(cache, field)
    {
      var order: seq<string> := [];
      var entries: map<string, Record> := map[];
      for i := 0 to |cache|
        invariant Table(order, entries) == Collect(cache[..i], field)
      {
        assert cache[..i + 1][..i] == cache[..i];
        ghost var before := Table(order, entries);
        var w := cache[i];
        if field in w.children && w.children[field].key.Some? {
          var item := w.children[field];
          var k := item.key.value;
          if k !in entries {
            order := order + [k];
          }
          entries := entries[k := item];
        }
        assert Table(order, entries) == Insert(before, w, field);
        CollectStep(cache[..i + 1], field);
      }
      assert cache[..|cache|] == cache;
      items := Values(Table(order, entries));
    }

    /** `get_weapon_types` */
    method GetWeaponTypes() returns (items: seq<Record>)
      ensures items == UniqueItems(cache, "type")
    {
      items := GetUniqueItems("type");
    }

    /** `get_sub_weapons` */
    method GetSubWeapons() returns (items: seq<Record>)
      ensures items == UniqueItems(cache, "sub")
    {
      items := GetUniqueItems("sub");
    }

    /** `get_special_weapons` */
    method GetSpecialWeapons() returns (items: seq<Record>)
      ensures items == UniqueItems(cache, "special")
    {
      items := GetUniqueItems("special");
    }
  }
}
