/**
 * `fill_tagmap` (main.py:32-44): the index from a feature tag to the
 * subtables of the lookups registered under it, over the GPOS lookups
 * followed by the GSUB lookups.
 */
module Layout {
  import opened Fonts

  /** The elements of a tag list. */
  function TagSet(tags: seq<string>): (s: set<string>)
    ensures forall t :: t in s <==> t in tags
  {
    if tags == [] then {}
    else
      var s := TagSet(tags[..|tags| - 1]) + {tags[|tags| - 1]};
      assert tags == tags[..|tags| - 1] + [tags[|tags| - 1]];
      s
  }

  /** The tags of some lookup in `ls`. */
  function AllTags(ls: seq<LookupInfo>): set<string> {
    if ls == [] then {} else AllTags(ls[..|ls| - 1]) + TagSet(ls[|ls| - 1].tags)
  }

  /** What one lookup adds under `tag`: its subtables once for every time
      `tag` appears among its tags. */
  function PerTag(tags: seq<string>, tag: string, sts: seq<string>): seq<string> {
    if tags == [] then []
    else PerTag(tags[..|tags| - 1], tag, sts) + (if tags[|tags| - 1] == tag then sts else [])
  }

  /** The list `tagmap[tag]` ends up holding: lookup by lookup, in order. */
  function TagSubtables(ls: seq<LookupInfo>, tag: string): seq<string> {
    if ls == [] then []
    else TagSubtables(ls[..|ls| - 1], tag) + PerTag(ls[|ls| - 1].tags, tag, ls[|ls| - 1].subtables)
  }

  lemma {:induction false} PerTagMember(tags: seq<string>, tag: string, sts: seq<string>, st: string)
    ensures st in PerTag(tags, tag, sts) <==> tag in tags && st in sts
  {
    if tags != [] {
      PerTagMember(tags[..|tags| - 1], tag, sts, st);
      assert tags == tags[..|tags| - 1] + [tags[|tags| - 1]];
    }
  }

  /** A subtable is listed under `tag` exactly when some lookup carrying
      `tag` owns it. */
  lemma {:induction false} TagSubtablesMember(ls: seq<LookupInfo>, tag: string, st: string)
    ensures st in TagSubtables(ls, tag) <==>
      exists i :: 0 <= i < |ls| && tag in ls[i].tags && st in ls[i].subtables
  {
    if ls != [] {
      var init := ls[..|ls| - 1];
      TagSubtablesMember(init, tag, st);
      PerTagMember(ls[|ls| - 1].tags, tag, ls[|ls| - 1].subtables, st);
      if exists i :: 0 <= i < |ls| && tag in ls[i].tags && st in ls[i].subtables {
        var i :| 0 <= i < |ls| && tag in ls[i].tags && st in ls[i].subtables;
        if i < |ls| - 1 {
          assert init[i] == ls[i];
        }
      }
      if exists i :: 0 <= i < |init| && tag in init[i].tags && st in init[i].subtables {
        var i :| 0 <= i < |init| && tag in init[i].tags && st in init[i].subtables;
        assert ls[i] == init[i];
      }
    }
  }

  /** A tag no lookup carries has no subtables. */
  lemma {:induction false} UnknownTagEmpty(ls: seq<LookupInfo>, tag: string)
    requires tag !in AllTags(ls)
    ensures TagSubtables(ls, tag) == []
  {
    if ls != [] {
      UnknownTagEmpty(ls[..|ls| - 1], tag);
      PerTagAbsent(ls[|ls| - 1].tags, tag, ls[|ls| - 1].subtables);
    }
  }

  lemma {:induction false} PerTagAbsent(tags: seq<string>, tag: string, sts: seq<string>)
    requires tag !in tags
    ensures PerTag(tags, tag, sts) == []
  {
    if tags != [] {
      PerTagAbsent(tags[..|tags| - 1], tag, sts);
    }
  }

  /** Lookups listed later add their subtables after earlier ones'. */
  lemma {:induction false} TagSubtablesAppend(a: seq<LookupInfo>, b: seq<LookupInfo>, tag: string)
    ensures TagSubtables(a + b, tag) == TagSubtables(a, tag) + TagSubtables(b, tag)
  {
    if b == [] {
      assert a + b == a;
    } else {
      var ab := a + b;
      var init := b[..|b| - 1];
      var last := b[|b| - 1];
      assert ab[..|ab| - 1] == a + init && ab[|ab| - 1] == last;
      TagSubtablesAppend(a, init, tag);
      TagSubtablesSnoc(ab, a + init, last, tag);
      TagSubtablesSnoc(b, init, last, tag);
    }
  }

  lemma TagSubtablesSnoc(ls: seq<LookupInfo>, init: seq<LookupInfo>, last: LookupInfo, tag: string)
    requires ls != [] && ls[..|ls| - 1] == init && ls[|ls| - 1] == last
    ensures TagSubtables(ls, tag) == TagSubtables(init, tag) + PerTag(last.tags, tag, last.subtables)
  {
  }

  /** `tagmap[tag]`, created empty if missing, with `tables` appended. */
  function Extend(tagmap: map<string, seq<string>>, tag: string, tables: seq<string>): map<string, seq<string>> {
    tagmap[tag := (if tag in tagmap then tagmap[tag] else []) + tables]
  }

  /** The innermost loop of `fill_tagmap`: create `tagmap[tag]` if missing,
      then append the lookup's subtables to it one by one. */
  method AppendTables(tagmap: map<string, seq<string>>, tag: string, tables: seq<string>)
    returns (r: map<string, seq<string>>)
    ensures r == Extend(tagmap, tag, tables)
  {
    r := tagmap;
    if tag !in r {
      r := r[tag := []];
    } else {
      assert r == tagmap[tag := tagmap[tag]];
    }
    ghost var before := r[tag];
    assert before + tables[..0] == before;
    for m := 0 to |tables|
      invariant r == tagmap[tag := before + tables[..m]]
    {
      assert tables[..m + 1] == tables[..m] + [tables[m]];
      ghost var cur := before + tables[..m];
      assert r[tag] == cur;
      assert before + tables[..m + 1] == cur + [tables[m]];
      r := r[tag := r[tag] + [tables[m]]];
      assert r == tagmap[tag := cur + [tables[m]]];
    }
    assert tables[..|tables|] == tables;
  }

  /** The map after the loop over a lookup's tags: `Extend` for each tag in
      turn. */
  function AddAll(tagmap: map<string, seq<string>>, tags: seq<string>, tables: seq<string>): map<string, seq<string>> {
    if tags == [] then tagmap
    else Extend(AddAll(tagmap, tags[..|tags| - 1], tables), tags[|tags| - 1], tables)
  }

  /** After one lookup, a tag is a key exactly when it was one already or
      the lookup carries it, and its list is the old one (or empty) followed
      by the lookup's subtables once for each time the lookup carries the
      tag. */
  lemma {:induction false} AddAllAt(tagmap: map<string, seq<string>>, tags: seq<string>, tables: seq<string>, t: string)
    ensures t in AddAll(tagmap, tags, tables) <==> t in tagmap || t in tags
    ensures t in AddAll(tagmap, tags, tables) ==>
      AddAll(tagmap, tags, tables)[t] == (if t in tagmap then tagmap[t] else []) + PerTag(tags, t, tables)
  {
    AddAllAtUpTo(tagmap, tags, tables, t);
  }

  /** `AddAllAt`'s two facts about `t`. */
  predicate AddedAt(tagmap: map<string, seq<string>>, tags: seq<string>, tables: seq<string>, t: string) {
    var m := AddAll(tagmap, tags, tables);
    (t in m <==> t in tagmap || t in tags)
    && (t in m ==> m[t] == (if t in tagmap then tagmap[t] else []) + PerTag(tags, t, tables))
  }

  lemma {:induction false} AddAllAtUpTo(tagmap: map<string, seq<string>>, tags: seq<string>, tables: seq<string>, t: string)
    ensures AddedAt(tagmap, tags, tables, t)
  {
    if tags != [] {
      AddAllAtUpTo(tagmap, tags[..|tags| - 1], tables, t);
      AddedAtStep(tagmap, tags, tables, t);
    }
  }

  /** One more tag keeps `AddedAt`. */
  lemma AddedAtStep(tagmap: map<string, seq<string>>, tags: seq<string>, tables: seq<string>, t: string)
    requires tags != [] && AddedAt(tagmap, tags[..|tags| - 1], tables, t)
    ensures AddedAt(tagmap, tags, tables, t)
  {
    var init := tags[..|tags| - 1];
    var last := tags[|tags| - 1];
    assert tags == init + [last];
    assert AddAll(tagmap, tags, tables) == Extend(AddAll(tagmap, init, tables), last, tables);
    assert PerTag(tags, t, tables) == PerTag(init, t, tables) + (if last == t then tables else []);
    if t !in tagmap && t !in init {
      PerTagAbsent(init, t, tables);
    }
  }

  /** The loop over one lookup's tags. */
  method AddLookup(tagmap: map<string, seq<string>>, tags: seq<string>, tables: seq<string>)
    returns (r: map<string, seq<string>>)
    ensures r == AddAll(tagmap, tags, tables)
  {
    r := tagmap;
    for k := 0 to |tags|
      invariant r == AddAll(tagmap, tags[..k], tables)
    {
      assert tags[..k + 1][..k] == tags[..k];
      r := AppendTables(r, tags[k], tables);
    }
    assert tags[..|tags|] == tags;
  }

  /** One pass of `fill_tagmap`'s loop over the lookups keeps its
      invariant. */
  lemma FillStep(lookups: seq<LookupInfo>, i: nat, prev: map<string, seq<string>>, next: map<string, seq<string>>)
    requires i < |lookups|
    requires prev.Keys == AllTags(lookups[..i])
    requires forall t :: t in prev ==> prev[t] == TagSubtables(lookups[..i], t)
    requires next == AddAll(prev, lookups[i].tags, lookups[i].subtables)
    ensures next.Keys == AllTags(lookups[..i + 1])
    ensures forall t :: t in next ==> next[t] == TagSubtables(lookups[..i + 1], t)
  {
    var l := lookups[..i + 1];
    assert l[..i] == lookups[..i] && l[i] == lookups[i];
    assert AllTags(l) == AllTags(lookups[..i]) + TagSet(lookups[i].tags);
    forall t
      ensures t in next <==> t in AllTags(l)
      ensures t in next ==> next[t] == TagSubtables(l, t)
    {
      AddAllAt(prev, lookups[i].tags, lookups[i].subtables, t);
      assert TagSubtables(l, t) == TagSubtables(lookups[..i], t) + PerTag(lookups[i].tags, t, lookups[i].subtables);
      if t !in prev {
        UnknownTagEmpty(lookups[..i], t);
      }
    }
  }

  /** `fill_tagmap`, starting from the empty global `tagmap`. The keys are
      the tags some lookup carries, and each tag maps to the subtables of
      the lookups carrying it, in lookup order, repeats included. */
  method FillTagmap(font: Font) returns (tagmap: map<string, seq<string>>)
    ensures tagmap.Keys == AllTags(font.gposLookups + font.gsubLookups)
    ensures forall t :: t in tagmap ==> tagmap[t] == TagSubtables(font.gposLookups + font.gsubLookups, t)
  {
    var lookups := font.gposLookups + font.gsubLookups;
    tagmap := map[];
    for i := 0 to |lookups|
      invariant tagmap.Keys == AllTags(lookups[..i])
      invariant forall t :: t in tagmap ==> tagmap[t] == TagSubtables(lookups[..i], t)
    {
      ghost var prev := tagmap;
      tagmap := AddLookup(tagmap, lookups[i].tags, lookups[i].subtables);
      FillStep(lookups, i, prev, tagmap);
    }
    assert lookups[..|lookups|] == lookups;
  }
}
