/**
 * The style grouping of the fashion dataset (`categorize.py`): folder-safe
 * names, the style key of an item's parsed metadata, grouping of item ids by
 * key in listing order, the 4..20 existing-images filter and the folder name
 * of a group.
 */
module Categorize {
  import opened Wrappers
  import opened Seqs
  import opened Ascii

  // ---------------------------------------------------------------------
  // safe_name
  // ---------------------------------------------------------------------

  /** The five characters `safe_name` rewrites: space, `/` and `\` become `_`, `(` and `)` are deleted. */
  predicate IsSpecial(c: char)
  {
    c == ' ' || c == '/' || c == '\\' || c == '(' || c == ')'
  }

  /** A character `safe_name` passes through unchanged once lower-cased: neither special nor `_`. */
  predicate IsPlain(c: char)
  {
    !IsSpecial(c) && c != '_'
  }

  /** The three `replace` calls that map space, `/` and `\` to `_`. */
  function Underscore(t: string): (u: string)
    ensures |u| == |t|
    ensures forall i :: 0 <= i < |t| ==> u[i] == if t[i] == ' ' || t[i] == '/' || t[i] == '\\' then '_' else t[i]
  {
    Replace(Replace(Replace(t, ' ', '_'), '/', '_'), '\\', '_')
  }

  predicate NotBracket(c: char)
  {
    c != '(' && c != ')'
  }

  /** The two `replace` calls that delete `(` and `)`: every other character is kept, in order. */
  function Unbracket(u: string): (r: string)
    ensures |r| <= |u|
    ensures forall i :: 0 <= i < |r| ==> r[i] in u && r[i] != '(' && r[i] != ')'
    ensures r == Filter(u, NotBracket)
  {
    RemoveBrackets(u);
    RemoveAll(RemoveAll(u, '('), ')')
  }

  /** Deleting `(` and then `)` keeps exactly the characters that are neither. */
  lemma {:induction false} RemoveBrackets(u: string)
    ensures RemoveAll(RemoveAll(u, '('), ')') == Filter(u, NotBracket)
  {
    if u != [] {
      var init, last := u[..|u| - 1], u[|u| - 1];
      RemoveBrackets(init);
      var a := RemoveAll(init, '(');
      var l := if last != '(' then [last] else [];
      assert RemoveAll(u, '(') == a + l;
      RemoveAllAppend(a, l, ')');
      assert [last][..0] == [];
    }
  }

  /** `safe_name(s)`: strip, lower-case, map space, `/` and `\` to `_`, delete `(` and `)`. */
  function SafeName(s: string): string
  {
    Unbracket(Underscore(Lower(Strip(s))))
  }

  /** A safe name has none of the five special characters, no upper-case letter, and is no longer than its input. */
  lemma SafeNameClean(s: string)
    ensures forall i :: 0 <= i < |SafeName(s)| ==> !IsSpecial(SafeName(s)[i]) && !IsUpper(SafeName(s)[i])
    ensures |SafeName(s)| <= |s|
  {
    var u := Underscore(Lower(Strip(s)));
    assert forall c :: c in u ==> c != ' ' && c != '/' && c != '\\' && !IsUpper(c);
  }

  /** The plain characters of the stripped, lower-cased input survive in a safe name, in order, and nothing else plain appears. */
  lemma SafeNameKeepsPlain(s: string)
    ensures Filter(SafeName(s), IsPlain) == Filter(Lower(Strip(s)), IsPlain)
  {
    var t := Lower(Strip(s));
    var u1 := Replace(t, ' ', '_');
    var u2 := Replace(u1, '/', '_');
    var u := Replace(u2, '\\', '_');
    FilterReplace(t, ' ', '_', IsPlain);
    FilterReplace(u1, '/', '_', IsPlain);
    FilterReplace(u2, '\\', '_', IsPlain);
    FilterRemoveAll(u, '(', IsPlain);
    FilterRemoveAll(RemoveAll(u, '('), ')', IsPlain);
  }

  /**
   * Every character of the stripped, lower-cased input other than the five
   * special ones, `_` included, survives in the safe name: at the position
   * given by the number of characters kept before it.
   */
  lemma SafeNameKeeps(s: string, i: nat)
    requires i < |Lower(Strip(s))| && !IsSpecial(Lower(Strip(s))[i])
    ensures var j := |Filter(Underscore(Lower(Strip(s)))[..i], NotBracket)|;
      j < |SafeName(s)| && SafeName(s)[j] == Lower(Strip(s))[i]
  {
    var t := Lower(Strip(s));
    var u := Underscore(t);
    assert u[i] == t[i];
    FilterAt(u, NotBracket, i);
  }

  /** The surviving characters keep their order: a later character lands at a later position. */
  lemma SafeNameKeepsOrder(s: string, i1: nat, i2: nat)
    requires i1 < i2 < |Lower(Strip(s))| && !IsSpecial(Lower(Strip(s))[i1])
    ensures var u := Underscore(Lower(Strip(s)));
      |Filter(u[..i1], NotBracket)| < |Filter(u[..i2], NotBracket)|
  {
    var t := Lower(Strip(s));
    var u := Underscore(t);
    assert u[i1] == t[i1];
    FilterPrefixGrows(u, NotBracket, i1, i2);
  }

  /** A name `safe_name` leaves as it is: no special or upper-case character, no whitespace at either end. */
  predicate IsSafe(s: string)
  {
    && (forall i :: 0 <= i < |s| ==> !IsSpecial(s[i]) && !IsUpper(s[i]))
    && (s == [] || (!IsSpace(s[0]) && !IsSpace(s[|s| - 1])))
  }

  lemma UnderscoreAbsent(t: string)
    requires forall i :: 0 <= i < |t| ==> t[i] != ' ' && t[i] != '/' && t[i] != '\\'
    ensures Underscore(t) == t
  {
  }

  lemma UnbracketAbsent(u: string)
    requires '(' !in u && ')' !in u
    ensures Unbracket(u) == u
  {
    RemoveAllAbsent(u, '(');
    RemoveAllAbsent(u, ')');
  }

  /** A safe name is its own safe name. */
  lemma SafeNameFixed(s: string)
    requires IsSafe(s)
    ensures SafeName(s) == s
  {
    StripNoop(s);
    LowerNoUpper(s);
    UnderscoreAbsent(s);
    UnbracketAbsent(s);
  }

  /** `safe_name` is idempotent on inputs whose safe name does not start or end with whitespace. */
  lemma SafeNameIdempotent(s: string)
    requires var r := SafeName(s); r == [] || (!IsSpace(r[0]) && !IsSpace(r[|r| - 1]))
    ensures SafeName(SafeName(s)) == SafeName(s)
  {
    SafeNameClean(s);
    SafeNameFixed(SafeName(s));
  }

  /**
   * Without that condition `safe_name` is not idempotent: deleting `(` can
   * expose whitespace that only a second `strip` removes, as in `"(\ta"`.
   */
  lemma SafeNameNotIdempotent(c: char, a: string)
    requires IsSpace(c) && c != ' ' && IsSafe(a) && a != []
    ensures SafeName("(" + [c] + a) == [c] + a
    ensures SafeName([c] + a) == a != [c] + a
  {
    BracketFirstPass(c, a);
    BracketSecondPass(c, a);
    assert |a| < |[c] + a|;
  }

  lemma BracketFirstPass(c: char, a: string)
    requires IsSpace(c) && c != ' ' && IsSafe(a) && a != []
    ensures SafeName("(" + [c] + a) == [c] + a
  {
    var t := [c] + a;
    var s := "(" + t;
    assert s == "(" + [c] + a;
    StripNoop(s);
    LowerNoUpper(s);
    UnderscoreAbsent(s);
    UnbracketLeading(t);
  }

  /** Deleting brackets from `"(" + t` leaves `t` when `t` has none. */
  lemma UnbracketLeading(t: string)
    requires '(' !in t && ')' !in t
    ensures Unbracket("(" + t) == t
  {
    RemoveAllLeading('(', t);
    RemoveAllAbsent(t, '(');
    RemoveAllAbsent(t, ')');
  }

  lemma BracketSecondPass(c: char, a: string)
    requires IsSpace(c) && IsSafe(a) && a != []
    ensures SafeName([c] + a) == a
  {
    StripLeadingSpace(c, a);
    SafeNameFixed(a);
  }

  // ---------------------------------------------------------------------
  // extract_style_key
  // ---------------------------------------------------------------------

  /**
   * The fields of a style file's JSON the key is made of:
   * `data.articleType.typeName`, `data.baseColour` and `data.usage`, each
   * `None` when absent.
   */
  datatype StyleMeta = StyleMeta(typeName: Option<string>, baseColour: Option<string>, usage: Option<string>)

  /** A style key: the safe names of article type, base colour and usage. */
  datatype StyleKey = StyleKey(articleType: string, baseColour: string, usage: string)

  /** Python truthiness of an optional string: present and non-empty. */
  predicate Truthy(v: Option<string>)
  {
    v.Some? && v.value != ""
  }

  /** `extract_style_key` after the JSON is parsed. */
  function ExtractStyleKey(m: StyleMeta): (k: Option<StyleKey>)
    ensures k.None? <==> !Truthy(m.typeName) || !Truthy(m.baseColour) || !Truthy(m.usage)
  {
    if !Truthy(m.typeName) || !Truthy(m.baseColour) || !Truthy(m.usage) then None
    else Some(StyleKey(SafeName(m.typeName.value), SafeName(m.baseColour.value), SafeName(m.usage.value)))
  }

  /** A key component has none of the five special characters and no upper-case letter. */
  predicate CleanComponent(c: string)
  {
    forall i :: 0 <= i < |c| ==> !IsSpecial(c[i]) && !IsUpper(c[i])
  }

  /** Every component of an extracted key is clean and no longer than the raw field. */
  lemma StyleKeyClean(m: StyleMeta)
    requires ExtractStyleKey(m).Some?
    ensures var k := ExtractStyleKey(m).value;
      && CleanComponent(k.articleType) && CleanComponent(k.baseColour) && CleanComponent(k.usage)
      && |k.articleType| <= |m.typeName.value| && |k.baseColour| <= |m.baseColour.value| && |k.usage| <= |m.usage.value|
  {
    SafeNameClean(m.typeName.value);
    SafeNameClean(m.baseColour.value);
    SafeNameClean(m.usage.value);
  }

  /**
   * The emptiness test sees the raw value: a whitespace-only type name passes
   * it and yields an empty article type.
   */
  lemma WhitespaceTypeName(m: StyleMeta)
    requires Truthy(m.typeName) && Truthy(m.baseColour) && Truthy(m.usage)
    requires forall i :: 0 <= i < |m.typeName.value| ==> IsSpace(m.typeName.value[i])
    ensures ExtractStyleKey(m).Some? && ExtractStyleKey(m).value.articleType == ""
  {
    StripAllSpace(m.typeName.value);
    assert Lower([]) == [];
  }

  // ---------------------------------------------------------------------
  // main: grouping
  // ---------------------------------------------------------------------

  /** A name listed in the styles directory and, for a `.json` name, the parsed metadata of that file. */
  datatype DirEntry = DirEntry(name: string, meta: StyleMeta)

  /**
   * `os.path.splitext(fname)[0]` for a name ending in `.json`: the name
   * without the extension, unless everything before the last dot is dots, in
   * which case `splitext` finds no extension.
   */
  function ItemId(fname: string): (id: string)
    requires EndsWith(fname, ".json")
    ensures (exists i :: 0 <= i < |fname| - 5 && fname[i] != '.') ==> id + ".json" == fname
    ensures (forall i :: 0 <= i < |fname| - 5 ==> fname[i] == '.') ==> id == fname
  {
    var stem := fname[..|fname| - 5];
    if forall i :: 0 <= i < |stem| ==> stem[i] == '.' then fname else stem
  }

  /** What the first loop of `main` takes from an accepted name: its item id and style key. */
  datatype Item = Item(id: string, key: StyleKey)

  /** The first loop's decision for one listed name: skip it, or append its id to its key's group. */
  function Scan(e: DirEntry): Option<Item>
  {
    if !EndsWith(e.name, ".json") then None
    else
      match ExtractStyleKey(e.meta)
      case None => None
      case Some(k) => Some(Item(ItemId(e.name), k))
  }

  /** A name contributes exactly when it ends in `.json` and its metadata has all three fields. */
  lemma ScanAccepts(e: DirEntry)
    ensures Scan(e).Some? <==>
      EndsWith(e.name, ".json") && Truthy(e.meta.typeName) && Truthy(e.meta.baseColour) && Truthy(e.meta.usage)
  {
  }

  /** The decisions for a whole listing, in listing order. */
  function Scanned(es: seq<DirEntry>): (items: seq<Option<Item>>)
    ensures |items| == |es|
  {
    seq(|es|, i requires 0 <= i < |es| => Scan(es[i]))
  }

  /** Whether a decision appends to the group of `key`. */
  predicate HasKey(o: Option<Item>, key: StyleKey)
  {
    o.Some? && o.value.key == key
  }

  /** `style_groups[key]` after the decisions `items`: the ids appended to that key, in order. */
  function GroupIds(items: seq<Option<Item>>, key: StyleKey): (ids: seq<string>)
    ensures |ids| <= |items|
  {
    if items == [] then []
    else
      var o := items[|items| - 1];
      GroupIds(items[..|items| - 1], key) + (if HasKey(o, key) then [o.value.id] else [])
  }

  /** The keys of `style_groups` after the decisions `items`, in insertion order. */
  function KeyOrder(items: seq<Option<Item>>): (ks: seq<StyleKey>)
    ensures |ks| <= |items|
  {
    if items == [] then []
    else
      var ks := KeyOrder(items[..|items| - 1]);
      match items[|items| - 1]
      case Some(it) => if it.key in ks then ks else ks + [it.key]
      case None => ks
  }

  /** The body of the grouping loop up to the append: skip non-`.json` names and names without a key. */
  method ScanEntry(e: DirEntry) returns (o: Option<Item>)
    ensures o == Scan(e)
  {
    if !EndsWith(e.name, ".json") {
      return None;
    }
    var key := ExtractStyleKey(e.meta);
    if key.None? {
      return None;
    }
    o := Some(Item(ItemId(e.name), key.value));
  }

  /** The grouping loop of `main`: `style_groups[key].append(item_id)` for every accepted name. */
  method GroupStyles(es: seq<DirEntry>) returns (order: seq<StyleKey>, groups: map<StyleKey, seq<string>>)
    ensures order == KeyOrder(Scanned(es))
    ensures forall k :: k in groups <==> k in order
    ensures forall k :: k in groups ==> groups[k] == GroupIds(Scanned(es), k)
  {
    ghost var items := Scanned(es);
    order, groups := [], map[];
    for i := 0 to |es|
      invariant order == KeyOrder(items[..i])
      invariant forall k :: k in groups <==> k in order
      invariant forall k :: k in groups ==> groups[k] == GroupIds(items[..i], k)
    {
      var o := ScanEntry(es[i]);
      assert items[i] == o;
      GroupStep(items, i);
      if o.None? {
        continue;
      }
      var k, id := o.value.key, o.value.id;
      if k !in groups {
        KeyOrderHasGroup(items[..i], k);
        order := order + [k];
        groups := groups[k := [id]];
      } else {
        groups := groups[k := groups[k] + [id]];
      }
    }
    assert items[..|es|] == items;
  }

  /** One more decision: how the insertion order and the groups grow. */
  lemma GroupStep(items: seq<Option<Item>>, i: nat)
    requires i < |items|
    ensures KeyOrder(items[..i + 1]) ==
      match items[i]
      case None => KeyOrder(items[..i])
      case Some(it) => if it.key in KeyOrder(items[..i]) then KeyOrder(items[..i]) else KeyOrder(items[..i]) + [it.key]
    ensures forall k :: GroupIds(items[..i + 1], k) == GroupIds(items[..i], k) + (if HasKey(items[i], k) then [items[i].value.id] else [])
  {
    assert items[..i + 1][..i] == items[..i];
  }

  /** A key that is not in the insertion order has no ids yet. */
  lemma {:induction false} KeyOrderHasGroup(items: seq<Option<Item>>, k: StyleKey)
    requires k !in KeyOrder(items)
    ensures GroupIds(items, k) == []
  {
    if items != [] {
      KeyOrderHasGroup(items[..|items| - 1], k);
    }
  }

  /** A key is in the insertion order exactly when its group has an id. */
  lemma {:induction false} KeyOrderIff(items: seq<Option<Item>>, k: StyleKey)
    ensures k in KeyOrder(items) <==> GroupIds(items, k) != []
  {
    if items != [] {
      KeyOrderIff(items[..|items| - 1], k);
    }
  }

  /** Each key occurs once in the insertion order. */
  lemma {:induction false} KeyOrderDistinct(items: seq<Option<Item>>)
    ensures forall p, q :: 0 <= p < q < |KeyOrder(items)| ==> KeyOrder(items)[p] != KeyOrder(items)[q]
  {
    if items != [] {
      KeyOrderDistinct(items[..|items| - 1]);
    }
  }

  /** Every accepted name's id is in the group of its key. */
  lemma {:induction false} GroupIdsComplete(items: seq<Option<Item>>, i: nat)
    requires i < |items| && items[i].Some?
    ensures items[i].value.id in GroupIds(items, items[i].value.key)
  {
    if i < |items| - 1 {
      var init := items[..|items| - 1];
      assert init[i] == items[i];
      GroupIdsComplete(init, i);
    }
  }

  /** Every id in a group comes from an accepted name with that key. */
  lemma {:induction false} GroupIdsSound(items: seq<Option<Item>>, k: StyleKey, p: nat)
    requires p < |GroupIds(items, k)|
    ensures exists i :: 0 <= i < |items| && HasKey(items[i], k) && GroupIds(items, k)[p] == items[i].value.id
  {
    var init, o := items[..|items| - 1], items[|items| - 1];
    var g0 := GroupIds(init, k);
    if p < |g0| {
      GroupIdsSound(init, k, p);
      var i :| 0 <= i < |init| && HasKey(init[i], k) && g0[p] == init[i].value.id;
      assert items[i] == init[i];
    } else {
      assert HasKey(items[|items| - 1], k) && GroupIds(items, k)[p] == items[|items| - 1].value.id;
    }
  }

  /** The total size of the groups of `ks`. */
  function GroupSizes(items: seq<Option<Item>>, ks: seq<StyleKey>): nat
  {
    if ks == [] then 0 else GroupSizes(items, ks[..|ks| - 1]) + |GroupIds(items, ks[|ks| - 1])|
  }

  /** How many keys of `ks` a decision appends to. */
  function Occurrences(ks: seq<StyleKey>, o: Option<Item>): nat
  {
    if ks == [] then 0 else Occurrences(ks[..|ks| - 1], o) + (if HasKey(o, ks[|ks| - 1]) then 1 else 0)
  }

  /** The last decision adds one id to the group of its key. */
  lemma {:induction false} GroupSizesLast(items: seq<Option<Item>>, ks: seq<StyleKey>)
    requires items != []
    ensures GroupSizes(items, ks) == GroupSizes(items[..|items| - 1], ks) + Occurrences(ks, items[|items| - 1])
  {
    if ks != [] {
      GroupSizesLast(items, ks[..|ks| - 1]);
    }
  }

  /** A decision appends to one key of a list of distinct keys if its key is there, and otherwise to none. */
  lemma {:induction false} OccurrencesDistinct(ks: seq<StyleKey>, o: Option<Item>)
    requires forall p, q :: 0 <= p < q < |ks| ==> ks[p] != ks[q]
    ensures Occurrences(ks, o) == if o.Some? && o.value.key in ks then 1 else 0
  {
    if ks != [] {
      var init := ks[..|ks| - 1];
      OccurrencesDistinct(init, o);
      assert ks == init + [ks[|ks| - 1]];
    }
  }

  /** The groups partition the accepted names: their sizes add up to the number of names with a key. */
  lemma {:induction false} GroupsPartition(items: seq<Option<Item>>)
    ensures GroupSizes(items, KeyOrder(items)) == |Somes(items)|
  {
    if items != [] {
      var init, o := items[..|items| - 1], items[|items| - 1];
      var ks := KeyOrder(init);
      GroupsPartition(init);
      KeyOrderDistinct(init);
      GroupSizesLast(items, ks);
      OccurrencesDistinct(ks, o);
      SomesPrefix(items, |items| - 1);
      assert items[..|items| - 1 + 1] == items;
      match o
      case None =>
      case Some(it) =>
        var k := it.key;
        if k !in ks {
          KeyOrderHasGroup(init, k);
          assert KeyOrder(items) == ks + [k];
          assert (ks + [k])[..|ks|] == ks;
          assert GroupIds(items, k) == [it.id];
          assert GroupSizes(items, ks + [k]) == GroupSizes(items, ks) + 1;
        }
    }
  }

  // ---------------------------------------------------------------------
  // main: the 4..20 filter and the folder names
  // ---------------------------------------------------------------------

  /** `os.path.join(IMAGES_DIR, f"{iid}.jpg")` with `IMAGES_DIR` = `./images`. */
  function ImagePath(id: string): string
  {
    "./images/" + id + ".jpg"
  }

  /** `valid_ids`: the ids of a group whose image exists, in group order. */
  function ValidIds(ids: seq<string>, imageExists: string -> bool): (v: seq<string>)
    ensures forall p :: 0 <= p < |v| ==> v[p] in ids && imageExists(ImagePath(v[p]))
  {
    Filter(ids, id => imageExists(ImagePath(id)))
  }

  /** Every id of a group whose image exists is valid. */
  lemma ValidIdsComplete(ids: seq<string>, imageExists: string -> bool, p: nat)
    requires p < |ids| && imageExists(ImagePath(ids[p]))
    ensures ids[p] in ValidIds(ids, imageExists)
  {
    FilterKeeps(ids, id => imageExists(ImagePath(id)), p);
  }

  /** A group is kept when 4 to 20 of its images exist. */
  predicate IsKept(groups: map<StyleKey, seq<string>>, imageExists: string -> bool, k: StyleKey)
  {
    k in groups && 4 <= |ValidIds(groups[k], imageExists)| <= 20
  }

  /** The kept keys of `order`, in order. */
  function KeptOf(order: seq<StyleKey>, groups: map<StyleKey, seq<string>>, imageExists: string -> bool): (r: seq<StyleKey>)
    ensures forall p :: 0 <= p < |r| ==> r[p] in order && IsKept(groups, imageExists, r[p])
  {
    if order == [] then []
    else
      var k := order[|order| - 1];
      KeptOf(order[..|order| - 1], groups, imageExists) + (if IsKept(groups, imageExists, k) then [k] else [])
  }

  /** Every kept key of `order` is in the result. */
  lemma {:induction false} KeptOfComplete(order: seq<StyleKey>, groups: map<StyleKey, seq<string>>, imageExists: string -> bool, p: nat)
    requires p < |order| && IsKept(groups, imageExists, order[p])
    ensures order[p] in KeptOf(order, groups, imageExists)
  {
    if p < |order| - 1 {
      KeptOfComplete(order[..|order| - 1], groups, imageExists, p);
    }
  }

  /** The filter loop of `main`, building `filtered_groups` in `style_groups` order. */
  method FilterGroups(order: seq<StyleKey>, groups: map<StyleKey, seq<string>>, imageExists: string -> bool)
    returns (kept: seq<StyleKey>, filtered: map<StyleKey, seq<string>>)
    requires forall k :: k in groups <==> k in order
    ensures kept == KeptOf(order, groups, imageExists)
    ensures forall k :: k in filtered <==> IsKept(groups, imageExists, k)
    ensures forall k :: k in filtered ==> k in groups && filtered[k] == ValidIds(groups[k], imageExists)
  {
    kept, filtered := [], map[];
    for i := 0 to |order|
      invariant kept == KeptOf(order[..i], groups, imageExists)
      invariant forall k :: k in filtered <==> k in order[..i] && IsKept(groups, imageExists, k)
      invariant forall k :: k in filtered ==> k in groups && filtered[k] == ValidIds(groups[k], imageExists)
    {
      var k := order[i];
      assert order[..i + 1][..i] == order[..i] && order[..i + 1][i] == k;
      var valid := ValidIds(groups[k], imageExists);
      if 4 <= |valid| <= 20 {
        kept := kept + [k];
        filtered := filtered[k := valid];
      }
    }
    assert order[..|order|] == order;
  }

  /** `f"{article_type}_{base_colour}_{usage}"`. */
  function FolderName(k: StyleKey): string
  {
    k.articleType + "_" + k.baseColour + "_" + k.usage
  }

  /** In `a + "_" + r` with no `_` in `a`, the first `_` is the one after `a`. */
  lemma FirstUnderscore(a: string, r: string)
    requires '_' !in a
    ensures (a + "_" + r)[|a|] == '_'
    ensures forall i :: 0 <= i < |a| ==> (a + "_" + r)[i] != '_'
  {
  }

  /** Two strings joined by `_` split back uniquely when the left parts have no `_`. */
  lemma SplitAtUnderscore(a1: string, r1: string, a2: string, r2: string)
    requires '_' !in a1 && '_' !in a2
    requires a1 + "_" + r1 == a2 + "_" + r2
    ensures a1 == a2 && r1 == r2
  {
    var n := a1 + "_" + r1;
    FirstUnderscore(a1, r1);
    FirstUnderscore(a2, r2);
    assert |a1| == |a2|;
    assert a1 == n[..|a1|] == a2;
    assert r1 == n[|a1| + 1..] == r2;
  }

  /** Keys whose type and colour have no `_` get different folders. */
  lemma FolderNameInjective(k1: StyleKey, k2: StyleKey)
    requires '_' !in k1.articleType && '_' !in k1.baseColour
    requires '_' !in k2.articleType && '_' !in k2.baseColour
    requires FolderName(k1) == FolderName(k2)
    ensures k1 == k2
  {
    assert FolderName(k1) == k1.articleType + "_" + (k1.baseColour + "_" + k1.usage);
    assert FolderName(k2) == k2.articleType + "_" + (k2.baseColour + "_" + k2.usage);
    SplitAtUnderscore(k1.articleType, k1.baseColour + "_" + k1.usage, k2.articleType, k2.baseColour + "_" + k2.usage);
    SplitAtUnderscore(k1.baseColour, k1.usage, k2.baseColour, k2.usage);
  }

  /**
   * Since `safe_name` turns spaces into `_`, two different keys can share a
   * folder: article type "a b" with colour "c", and article type "a" with
   * colour "b c", both land in `a_b_c_d`.
   */
  lemma FolderNameCollision(a: string, b: string, c: string, d: string)
    requires IsSafe(a) && IsSafe(b) && IsSafe(c) && IsSafe(d)
    requires a != [] && b != [] && c != [] && d != []
    ensures var k1 := ExtractStyleKey(StyleMeta(Some(a + " " + b), Some(c), Some(d)));
      var k2 := ExtractStyleKey(StyleMeta(Some(a), Some(b + " " + c), Some(d)));
      && k1 == Some(StyleKey(a + "_" + b, c, d))
      && k2 == Some(StyleKey(a, b + "_" + c, d))
      && k1 != k2
      && FolderName(k1.value) == FolderName(k2.value)
  {
    SpacedTypeKey(a, b, c, d);
    SpacedColourKey(a, b, c, d);
    assert |a + "_" + b| != |a|;
    FolderNameRegroup(a, b, c, d);
  }

  lemma SpacedTypeKey(a: string, b: string, c: string, d: string)
    requires IsSafe(a) && IsSafe(b) && IsSafe(c) && IsSafe(d)
    requires a != [] && b != [] && c != [] && d != []
    ensures ExtractStyleKey(StyleMeta(Some(a + " " + b), Some(c), Some(d))) == Some(StyleKey(a + "_" + b, c, d))
  {
    SafeNameOfSpaced(a, b);
    SafeNameFixed(c);
    SafeNameFixed(d);
  }

  lemma SpacedColourKey(a: string, b: string, c: string, d: string)
    requires IsSafe(a) && IsSafe(b) && IsSafe(c) && IsSafe(d)
    requires a != [] && b != [] && c != [] && d != []
    ensures ExtractStyleKey(StyleMeta(Some(a), Some(b + " " + c), Some(d))) == Some(StyleKey(a, b + "_" + c, d))
  {
    SafeNameFixed(a);
    SafeNameOfSpaced(b, c);
    SafeNameFixed(d);
  }

  lemma FolderNameRegroup(a: string, b: string, c: string, d: string)
    ensures FolderName(StyleKey(a + "_" + b, c, d)) == FolderName(StyleKey(a, b + "_" + c, d))
  {
    var s := "_";
    assert (a + s + b) + s + c == a + s + (b + s + c);
  }

  /** Two safe words separated by a space become one name joined by `_`. */
  lemma SafeNameOfSpaced(a: string, b: string)
    requires IsSafe(a) && IsSafe(b) && a != [] && b != []
    ensures SafeName(a + " " + b) == a + "_" + b
  {
    SpacedPrepared(a, b);
    SpacedUnderscored(a, b);
    JoinedUnbracketed(a, b);
  }

  lemma SpacedPrepared(a: string, b: string)
    requires IsSafe(a) && IsSafe(b) && a != [] && b != []
    ensures Lower(Strip(a + " " + b)) == a + " " + b
  {
    var s := a + " " + b;
    StripNoop(s);
    LowerNoUpper(s);
  }

  lemma SpacedUnderscored(a: string, b: string)
    requires IsSafe(a) && IsSafe(b)
    ensures Underscore(a + " " + b) == a + "_" + b
  {
  }

  lemma JoinedUnbracketed(a: string, b: string)
    requires IsSafe(a) && IsSafe(b)
    ensures Unbracket(a + "_" + b) == a + "_" + b
  {
    UnbracketAbsent(a + "_" + b);
  }

  // ---------------------------------------------------------------------
  // main
  // ---------------------------------------------------------------------

  /** A group to create: its folder name and the ids whose images go into it. */
  datatype GroupFolder = GroupFolder(folder: string, ids: seq<string>)

  /** `style_groups` after the decisions `items`. */
  function Groups(items: seq<Option<Item>>): map<StyleKey, seq<string>>
  {
    map k | k in KeyOrder(items) :: GroupIds(items, k)
  }

  /** The keys of the kept groups, in insertion order. */
  function KeptKeys(items: seq<Option<Item>>, imageExists: string -> bool): seq<StyleKey>
  {
    KeptOf(KeyOrder(items), Groups(items), imageExists)
  }

  /**
   * `main` without the file system: the number of style groups and, per
   * kept group in insertion order, its folder name and the ids to copy.
   */
  method Categorize(es: seq<DirEntry>, imageExists: string -> bool) returns (numGroups: nat, folders: seq<GroupFolder>)
    ensures var items := Scanned(es);
      && numGroups == |KeyOrder(items)|
      && |folders| == |KeptKeys(items, imageExists)|
      && forall j :: 0 <= j < |folders| ==>
        var k := KeptKeys(items, imageExists)[j];
        folders[j] == GroupFolder(FolderName(k), ValidIds(GroupIds(items, k), imageExists))
  {
    var order, groups := GroupStyles(es);
    var kept, filtered := FilterGroups(order, groups, imageExists);
    KeptAgree(Scanned(es), imageExists, order, groups, kept, filtered);
    numGroups := |order|;
    folders := MakeFolders(kept, filtered);
  }

  /** The kept keys and lists of the two loops, in terms of the decisions. */
  lemma KeptAgree(items: seq<Option<Item>>, imageExists: string -> bool, order: seq<StyleKey>, groups: map<StyleKey, seq<string>>,
                  kept: seq<StyleKey>, filtered: map<StyleKey, seq<string>>)
    requires order == KeyOrder(items)
    requires forall k :: k in groups <==> k in order
    requires forall k :: k in groups ==> groups[k] == GroupIds(items, k)
    requires kept == KeptOf(order, groups, imageExists)
    requires forall k :: k in filtered <==> IsKept(groups, imageExists, k)
    requires forall k :: k in filtered ==> k in groups && filtered[k] == ValidIds(groups[k], imageExists)
    ensures kept == KeptKeys(items, imageExists)
    ensures forall k :: k in kept ==> k in filtered && filtered[k] == ValidIds(GroupIds(items, k), imageExists)
  {
    assert groups == Groups(items);
  }

  /** The folder loop of `main`: one folder per kept group, in order. */
  method MakeFolders(kept: seq<StyleKey>, filtered: map<StyleKey, seq<string>>) returns (folders: seq<GroupFolder>)
    requires forall k :: k in kept ==> k in filtered
    ensures |folders| == |kept|
    ensures forall j :: 0 <= j < |kept| ==> folders[j] == GroupFolder(FolderName(kept[j]), filtered[kept[j]])
  {
    folders := [];
    for j := 0 to |kept|
      invariant |folders| == j
      invariant forall p :: 0 <= p < j ==> folders[p] == GroupFolder(FolderName(kept[p]), filtered[kept[p]])
    {
      folders := folders + [GroupFolder(FolderName(kept[j]), filtered[kept[j]])];
    }
  }

  /** When no name is accepted there are no groups and no folders. */
  lemma {:induction false} NoKeysNoFolders(items: seq<Option<Item>>, imageExists: string -> bool)
    requires forall i :: 0 <= i < |items| ==> items[i].None?
    ensures KeyOrder(items) == [] && KeptKeys(items, imageExists) == []
  {
    if items != [] {
      NoKeysNoFolders(items[..|items| - 1], imageExists);
    }
  }

  /** Every folder holds 4 to 20 ids, each with an existing image. */
  lemma KeptFolderBounds(items: seq<Option<Item>>, imageExists: string -> bool, j: nat)
    requires j < |KeptKeys(items, imageExists)|
    ensures var k := KeptKeys(items, imageExists)[j];
      var v := ValidIds(GroupIds(items, k), imageExists);
      && 4 <= |v| <= 20
      && forall p :: 0 <= p < |v| ==> imageExists(ImagePath(v[p]))
  {
  }
}
