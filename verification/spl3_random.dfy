/**
 * The data rules of the random-weapon cog in cogs/spl3_random.py: the
 * autocomplete filter over the distinct type/sub/special records and the
 * choice between an attached image and the wiki URL for the embed.
 */
module Spl3Random {
  import opened Wrappers
  import opened UrlEncoding
  import opened WeaponApi

  /** `app_commands.Choice(name=..., value=...)` */
  datatype Choice = Choice(name: string, value: string)

  /** `discord.File(io.BytesIO(data), filename=...)` */
  datatype Attachment = Attachment(data: seq<byte>, filename: string)

  /** Which `get_*` method of the data manager an autocomplete callback hands over. */
  datatype Catalogue = WeaponTypes | SubWeapons | SpecialWeapons

  /** Discord shows at most this many autocomplete choices. */
  const MaxChoices := 25

  function FieldOf(c: Catalogue): string
  {
    match c
    case WeaponTypes => "type"
    case SubWeapons => "sub"
    case SpecialWeapons => "special"
  }

  /** Python's `part in text` on strings: `part` occurs in `text` at some position. */
  predicate Contains(text: string, part: string)
    ensures Contains(text, part) ==> |part| <= |text|
    ensures part <= text ==> Contains(text, part)
  {
    assert text[0..] == text;
    exists k :: 0 <= k <= |text| - |part| && part <= text[k..]
  }

  /** The name an item is shown under: its ja_JP name, or "Unknown". */
  function ShownName(item: Record): string
  {
    LocalizedName(Some(item), "name")
  }

  predicate Shows(item: Record, current: string)
  {
    Contains(ShownName(item), current)
  }

  /** What `_autocomplete_helper` needs of its items: `item['key']` is only read
      for items that are shown, and there it must exist. */
  predicate KeyedWhereShown(items: seq<Record>, current: string)
  {
    forall i :: 0 <= i < |items| && Shows(items[i], current) ==> items[i].key.Some?
  }

  function ChoiceFor(item: Record): (c: Choice)
    requires item.key.Some?
  {
    Choice(ShownName(item), item.key.value)
  }

  /** The choices for every shown item, in item order, before the cap. */
  function AllChoices(items: seq<Record>, current: string): (r: seq<Choice>)
    requires KeyedWhereShown(items, current)
    ensures |r| <= |items|
    ensures forall c :: c in r ==> Contains(c.name, current)
    decreases |items|
  {
    if items == [] then []
    else
      var init := AllChoices(items[..|items| - 1], current);
      var last := items[|items| - 1];
      if Shows(last, current) then init + [ChoiceFor(last)] else init
  }

  /** The indices of the shown items, in increasing order. */
  function ShownIndices(items: seq<Record>, current: string): (idx: seq<int>)
    ensures forall a :: 0 <= a < |idx| ==> 0 <= idx[a] < |items| && Shows(items[idx[a]], current)
    ensures forall a, b :: 0 <= a < b < |idx| ==> idx[a] < idx[b]
    ensures forall i :: 0 <= i < |items| && Shows(items[i], current) ==> i in idx
    decreases |items|
  {
    if items == [] then []
    else
      var init := ShownIndices(items[..|items| - 1], current);
      if Shows(items[|items| - 1], current) then init + [|items| - 1] else init
  }

  /** Python's `s[:n]` for `n >= 0`. */
  function Take<T>(s: seq<T>, n: nat): (r: seq<T>)
    ensures |r| == if |s| <= n then |s| else n
    ensures r <= s
  {
    if |s| <= n then s else s[..n]
  }

  /** One step of `AllChoices` and `ShownIndices`: the last item adds its choice
      and its index exactly when it is shown. */
  lemma LastStep(items: seq<Record>, current: string)
    requires items != [] && KeyedWhereShown(items, current)
    ensures KeyedWhereShown(items[..|items| - 1], current)
    ensures Shows(items[|items| - 1], current) ==>
      AllChoices(items, current) == AllChoices(items[..|items| - 1], current) + [ChoiceFor(items[|items| - 1])] &&
      ShownIndices(items, current) == ShownIndices(items[..|items| - 1], current) + [|items| - 1]
    ensures !Shows(items[|items| - 1], current) ==>
      AllChoices(items, current) == AllChoices(items[..|items| - 1], current) &&
      ShownIndices(items, current) == ShownIndices(items[..|items| - 1], current)
  {
    assert forall i :: 0 <= i < |items| - 1 ==> items[..|items| - 1][i] == items[i];
  }

  /** The uncapped choices are exactly the shown items, in their order: the
      `a`-th choice belongs to the `a`-th shown item, and no shown item is skipped. */
  lemma {:induction false} AllChoicesAreShownItems(items: seq<Record>, current: string)
    requires KeyedWhereShown(items, current)
    ensures |AllChoices(items, current)| == |ShownIndices(items, current)|
    ensures forall a :: 0 <= a < |AllChoices(items, current)| ==>
      AllChoices(items, current)[a] == ChoiceFor(items[ShownIndices(items, current)[a]])
    decreases |items|
  {
    if items != [] {
      var n := |items| - 1;
      var prefix := items[..n];
      LastStep(items, current);
      AllChoicesAreShownItems(prefix, current);
      var init, idx := AllChoices(prefix, current), ShownIndices(prefix, current);
      var all, shown := AllChoices(items, current), ShownIndices(items, current);
      forall a | 0 <= a < |all|
        ensures all[a] == ChoiceFor(items[shown[a]])
      {
        if a < |init| {
          assert prefix[idx[a]] == items[idx[a]];
        }
      }
    }
  }

  /** With nothing typed yet every item is shown, so the choices are all the items. */
  lemma {:induction false} EmptyTextShowsAll(items: seq<Record>)
    requires forall i :: 0 <= i < |items| ==> items[i].key.Some?
    ensures KeyedWhereShown(items, "")
    ensures AllChoices(items, "") == seq(|items|, i requires 0 <= i < |items| => ChoiceFor(items[i]))
    decreases |items|
  {
    assert forall i :: 0 <= i < |items| ==> Shows(items[i], "") by {
      forall i | 0 <= i < |items| ensures Shows(items[i], "") {
        assert "" <= ShownName(items[i])[0..];
      }
    }
    if items != [] {
      var n := |items| - 1;
      EmptyTextShowsAll(items[..n]);
    }
  }

  /** The loop and slice of `_autocomplete_helper`: the first 25 choices whose
      name contains `current`, as the shown items come. */
  method FilterChoices(items: seq<Record>, current: string) returns (choices: seq<Choice>)
    requires KeyedWhereShown(items, current)
    ensures choices == Take(AllChoices(items, current), MaxChoices)
    ensures |choices| <= MaxChoices
    ensures forall c :: c in choices ==> Contains(c.name, current)
  {
    var all: seq<Choice> := [];
    for i := 0 to |items|
      invariant KeyedWhereShown(items[..i], current)
      invariant all == AllChoices(items[..i], current)
    {
      assert items[..i + 1][..i] == items[..i];
      assert KeyedWhereShown(items[..i + 1], current) by {
        assert forall j :: 0 <= j <= i ==> items[..i + 1][j] == items[j];
      }
      var item := items[i];
      var name := LocalizedName(Some(item), "name");
      if Contains(name, current) {
        all := all + [Choice(name, item.key.value)];
      }
    }
    assert items[..|items|] == items;
    choices := Take(all, MaxChoices);
  }

  /** The cog, holding its weapon data manager. */
  class Spl3RandomCog {
    const dataManager: WeaponDataManager

    constructor ()
      ensures fresh(dataManager) && dataManager.cache == []
    {
      dataManager := new WeaponDataManager();
    }

    /** `_autocomplete_helper(current, get_items_method)`: make sure the weapon
        list is cached, take the distinct records of the catalogue and keep the
        first 25 whose ja_JP name contains `current`. */
    method AutocompleteHelper(current: string, catalogue: Catalogue, outcome: FetchOutcome)
      returns (choices: seq<Choice>)
      modifies dataManager
      ensures old(dataManager.cache) != [] ==> dataManager.cache == old(dataManager.cache)
      ensures old(dataManager.cache) == [] ==>
        dataManager.cache == if outcome.Response? && outcome.status == 200 then outcome.body else []
      ensures KeyedWhereShown(UniqueItems(dataManager.cache, FieldOf(catalogue)), current)
      ensures choices == Take(AllChoices(UniqueItems(dataManager.cache, FieldOf(catalogue)), current), MaxChoices)
    {
      var _ := dataManager.FetchWeapons(outcome);
      var items;
      match catalogue {
        case WeaponTypes => items := dataManager.GetWeaponTypes();
        case SubWeapons => items := dataManager.GetSubWeapons();
        case SpecialWeapons => items := dataManager.GetSpecialWeapons();
      }
      choices := FilterChoices(items, current);
    }
  }

  /** What `f"{key}"` prints for the weapon's key; a missing key prints "None". */
  function KeyText(key: Option<string>): (s: string)
    ensures key.Some? ==> s == key.value
    ensures key.None? ==> s == "None"
  {
    match key
    case None => "None"
    case Some(k) => k
  }

  /** Lines 66-71 of `random_weapon`: non-empty image bytes are attached as
      "<key>.png" and the embed points at that attachment; otherwise nothing is
      attached and the embed keeps the wiki URL. */
  method EmbedImage(key: Option<string>, imageUrl: string, imageData: Option<seq<byte>>)
    returns (file: Option<Attachment>, embedImageUrl: string)
    ensures file.Some? <==> imageData.Some? && imageData.value != []
    ensures file.Some? ==> file.value == Attachment(imageData.value, KeyText(key) + ".png")
    ensures file.Some? ==> embedImageUrl == "attachment://" + file.value.filename
    ensures file.None? ==> embedImageUrl == imageUrl
  {
    file := None;
    embedImageUrl := imageUrl;
    if imageData.Some? && imageData.value != [] {
      file := Some(Attachment(imageData.value, KeyText(key) + ".png"));
      embedImageUrl := "attachment://" + KeyText(key) + ".png";
    }
  }
}
