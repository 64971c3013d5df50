/** The de-duplicating item collector of the offline extractor
    (scripts/parse-data.mjs): the dedup key, the id counter, and addItem,
    which appends a new item or merges into the one with the same key. */
module Collector {
  import opened Text
  import opened Types
  import opened ItemMerge

  /** slug: `${term}|${language}|${kind}`, lower-cased, then trimmed. */
  function Slug(term: string, language: string, kind: string): string {
    Trim(Lower(term + "|" + language + "|" + kind))
  }

  /** The slug is the lower-cased `term|language|kind` with the white space
      at both ends removed, and nothing else removed. */
  lemma SlugSpec(term: string, language: string, kind: string)
    ensures var full := Lower(term + "|" + language + "|" + kind);
            var s := Slug(term, language, kind);
            && (exists a, b :: 0 <= a <= b <= |full| && s == full[a..b] && AllSpace(full[..a]) && AllSpace(full[b..]))
            && (s != [] ==> !IsJsSpace(s[0]) && !IsJsSpace(s[|s| - 1]))
            && s != []
  {
    var full := Lower(term + "|" + language + "|" + kind);
    TrimSpec(full);
    var i := |term|;
    assert (term + "|" + language + "|" + kind)[i] == '|';
    assert full[i] == '|' && !IsJsSpace(full[i]);
  }

  /** The dedup key ignores the case of term and language. */
  lemma SlugIgnoresCase(term: string, language: string, kind: string)
    ensures Slug(Lower(term), Lower(language), kind) == Slug(term, language, kind)
  {
    LowerConcat(term + "|", language + "|" + kind);
    LowerConcat(term, "|");
    LowerConcat(language + "|", kind);
    LowerConcat(language, "|");
    LowerConcat(Lower(term) + "|", Lower(language) + "|" + kind);
    LowerConcat(Lower(term), "|");
    LowerConcat(Lower(language) + "|", kind);
    LowerConcat(Lower(language), "|");
    LowerIdempotent(term);
    LowerIdempotent(language);
    assert term + "|" + language + "|" + kind == (term + "|") + (language + "|" + kind);
    assert Lower(term) + "|" + Lower(language) + "|" + kind
        == (Lower(term) + "|") + (Lower(language) + "|" + kind);
  }

  /** The dedup key of an item: its slug over the kind's spelling. */
  function KindSlug(term: string, language: string, kind: Kind): string {
    Slug(term, language, KindName(kind))
  }

  /** A key function over term, language and kind. The collector's laws
      below hold for any such function; the extractor uses KindSlug. */
  type KeyFn = (string, string, Kind) -> string

  function KeyOf(key: KeyFn, item: StudyItem): string {
    key(item.term, item.language, item.kind)
  }

  function RawKey(key: KeyFn, raw: RawItem): string {
    key(raw.term, raw.language, raw.kind)
  }

  /** The id of the n-th item collected. */
  function NumberedId(n: nat): string {
    "item-" + NatToString(n)
  }

  /** `items.find(i => slug(...) === target)`: the first index with that
      key, or |items|. */
  function FindKey(key: KeyFn, items: seq<StudyItem>, target: string): (r: nat)
    ensures r <= |items|
    ensures r < |items| ==> KeyOf(key, items[r]) == target
    ensures forall j :: 0 <= j < r ==> KeyOf(key, items[j]) != target
  {
    if items == [] then 0
    else if KeyOf(key, items[0]) == target then 0
    else 1 + FindKey(key, items[1..], target)
  }

  /** A merge function: the existing item and the incoming raw item give
      the merged item. The collector's laws below hold for any merge that
      keeps the fields the key and the id are made of; the extractor uses
      Merge. */
  type MergeFn = (StudyItem, RawItem) -> StudyItem

  /** The merge keeps the id and the fields the key reads. */
  ghost predicate KeepsIdentity(merge: MergeFn) {
    forall x: StudyItem, raw: RawItem :: merge(x, raw).id == x.id && merge(x, raw).term == x.term
                     && merge(x, raw).language == x.language && merge(x, raw).kind == x.kind
  }

  /** Merging the same raw item twice is merging it once. */
  ghost predicate MergeIdempotentFn(merge: MergeFn) {
    forall x: StudyItem, raw: RawItem :: merge(merge(x, raw), raw) == merge(x, raw)
  }

  /** Merging an item's own raw data back into it changes nothing. */
  ghost predicate OwnRawNeutral(merge: MergeFn) {
    forall x: StudyItem, raw: RawItem :: x == WithId(x.id, raw) ==> merge(x, raw) == x
  }

  /** The extractor's merge has all three properties. */
  lemma MergeLaws()
    ensures KeepsIdentity(Merge) && MergeIdempotentFn(Merge) && OwnRawNeutral(Merge)
  {
    forall x: StudyItem, raw: RawItem
      ensures Merge(x, raw).id == x.id && Merge(x, raw).term == x.term
              && Merge(x, raw).language == x.language && Merge(x, raw).kind == x.kind
    {
      MergeKeepsIdentity(x, raw);
    }
    forall x: StudyItem, raw: RawItem
      ensures Merge(Merge(x, raw), raw) == Merge(x, raw)
    {
      MergeIdempotent(x, raw);
    }
    forall x: StudyItem, raw: RawItem | x == WithId(x.id, raw)
      ensures Merge(x, raw) == x
    {
      MergeOwnRaw(x, raw);
    }
  }

  /** The collector's state: the item list, the set of keys seen and the id
      counter. */
  datatype Corpus = Corpus(items: seq<StudyItem>, seen: set<string>, nextId: nat)

  function KeySet(key: KeyFn, items: seq<StudyItem>): set<string> {
    set i | 0 <= i < |items| :: KeyOf(key, items[i])
  }

  /** The collector's invariant: `seen` holds exactly the items' keys, no
      two items share a key, the n-th item has id "item-n", and the counter
      is one past the number of items. */
  predicate Consistent(key: KeyFn, c: Corpus) {
    && c.seen == KeySet(key, c.items)
    && (forall i, j :: 0 <= i < j < |c.items| ==> KeyOf(key, c.items[i]) != KeyOf(key, c.items[j]))
    && (forall i :: 0 <= i < |c.items| ==> c.items[i].id == NumberedId(i + 1))
    && c.nextId == |c.items| + 1
  }

  /** addItem on the collector's state. */
  function Add(key: KeyFn, merge: MergeFn, c: Corpus, raw: RawItem): Corpus {
    var k := RawKey(key, raw);
    if k in c.seen then
      var i := FindKey(key, c.items, k);
      if i < |c.items| then c.(items := c.items[i := merge(c.items[i], raw)]) else c
    else Corpus(c.items + [WithId(NumberedId(c.nextId), raw)], c.seen + {k}, c.nextId + 1)
  }

  /** The collector in its initial state. */
  const Empty: Corpus := Corpus([], {}, 1)

  lemma EmptyConsistent(key: KeyFn)
    ensures Consistent(key, Empty)
  {
  }

  /** Under the invariant, a seen key is found. */
  lemma FindSeen(key: KeyFn, c: Corpus, k: string)
    requires Consistent(key, c) && k in c.seen
    ensures FindKey(key, c.items, k) < |c.items|
  {
    var j :| 0 <= j < |c.items| && KeyOf(key, c.items[j]) == k;
  }

  /** A new key appends exactly one item, numbered by the counter, and
      bumps the counter; a seen key merges into the one item with that key,
      keeping the count, the keys and the counter. */
  lemma AddSpec(key: KeyFn, merge: MergeFn, c: Corpus, raw: RawItem)
    requires Consistent(key, c)
    ensures var r := Add(key, merge, c, raw);
            var k := RawKey(key, raw);
            && (k !in c.seen ==>
                  && r.items == c.items + [WithId(NumberedId(|c.items| + 1), raw)]
                  && r.seen == c.seen + {k}
                  && r.nextId == c.nextId + 1)
            && (k in c.seen ==>
                  && r.seen == c.seen && r.nextId == c.nextId && |r.items| == |c.items|
                  && exists i :: 0 <= i < |c.items| && KeyOf(key, c.items[i]) == k
                       && r.items == c.items[i := merge(c.items[i], raw)])
  {
    var k := RawKey(key, raw);
    if k in c.seen {
      FindSeen(key, c, k);
    }
  }

  /** Two lists with the same key at every position. */
  predicate KeysAgree(key: KeyFn, a: seq<StudyItem>, b: seq<StudyItem>) {
    |a| == |b| && forall j :: 0 <= j < |a| ==> KeyOf(key, a[j]) == KeyOf(key, b[j])
  }

  lemma KeySetAgrees(key: KeyFn, a: seq<StudyItem>, b: seq<StudyItem>)
    requires KeysAgree(key, a, b)
    ensures KeySet(key, a) == KeySet(key, b)
  {
    forall s | s in KeySet(key, a)
      ensures s in KeySet(key, b)
    {
      var j :| 0 <= j < |a| && KeyOf(key, a[j]) == s;
      assert KeyOf(key, b[j]) == s;
    }
    forall s | s in KeySet(key, b)
      ensures s in KeySet(key, a)
    {
      var j :| 0 <= j < |b| && KeyOf(key, b[j]) == s;
      assert KeyOf(key, a[j]) == s;
    }
  }

  /** Replacing an item by one with the same key and id keeps every key
      and id. */
  lemma ReplaceKeepsKeys(key: KeyFn, items: seq<StudyItem>, i: nat, x: StudyItem)
    requires i < |items| && KeyOf(key, x) == KeyOf(key, items[i]) && x.id == items[i].id
    ensures var r := items[i := x];
            && KeysAgree(key, r, items)
            && KeySet(key, r) == KeySet(key, items)
            && forall j :: 0 <= j < |r| ==> r[j].id == items[j].id
  {
    var r := items[i := x];
    assert KeysAgree(key, r, items);
    KeySetAgrees(key, r, items);
  }

  /** An appended item adds its key. */
  lemma AppendKeys(key: KeyFn, items: seq<StudyItem>, x: StudyItem)
    ensures KeySet(key, items + [x]) == KeySet(key, items) + {KeyOf(key, x)}
  {
    var r := items + [x];
    forall s | s in KeySet(key, r)
      ensures s in KeySet(key, items) + {KeyOf(key, x)}
    {
      var j :| 0 <= j < |r| && KeyOf(key, r[j]) == s;
      if j < |items| {
        assert r[j] == items[j];
      }
    }
    forall s | s in KeySet(key, items)
      ensures s in KeySet(key, r)
    {
      var j :| 0 <= j < |items| && KeyOf(key, items[j]) == s;
      assert r[j] == items[j];
    }
    assert r[|items|] == x;
  }

  /** Replacing an item by one with the same key and id keeps the
      invariant. */
  lemma ReplaceConsistent(key: KeyFn, c: Corpus, i: nat, x: StudyItem)
    requires Consistent(key, c)
    requires i < |c.items| && KeyOf(key, x) == KeyOf(key, c.items[i]) && x.id == c.items[i].id
    ensures Consistent(key, c.(items := c.items[i := x]))
  {
    ReplaceKeepsKeys(key, c.items, i, x);
  }

  /** Appending an item with a new key and the counter's id, recording the
      key and bumping the counter, keeps the invariant. */
  lemma AppendConsistent(key: KeyFn, c: Corpus, x: StudyItem)
    requires Consistent(key, c)
    requires KeyOf(key, x) !in c.seen && x.id == NumberedId(c.nextId)
    ensures Consistent(key, Corpus(c.items + [x], c.seen + {KeyOf(key, x)}, c.nextId + 1))
  {
    AppendKeys(key, c.items, x);
    var r := c.items + [x];
    forall i, j | 0 <= i < j < |r|
      ensures KeyOf(key, r[i]) != KeyOf(key, r[j])
    {
      assert r[i] == c.items[i];
      if j < |c.items| {
        assert r[j] == c.items[j];
      } else {
        assert KeyOf(key, c.items[i]) in c.seen;
      }
    }
    forall j | 0 <= j < |r|
      ensures r[j].id == NumberedId(j + 1)
    {
      if j < |c.items| {
        assert r[j] == c.items[j];
      }
    }
  }

  /** addItem keeps the invariant. */
  lemma AddConsistent(key: KeyFn, merge: MergeFn, c: Corpus, raw: RawItem)
    requires KeepsIdentity(merge)
    requires Consistent(key, c)
    ensures Consistent(key, Add(key, merge, c, raw))
  {
    var k := RawKey(key, raw);
    if k in c.seen {
      FindSeen(key, c, k);
      var i := FindKey(key, c.items, k);
      ReplaceConsistent(key, c, i, merge(c.items[i], raw));
    } else {
      var x := WithId(NumberedId(c.nextId), raw);
      assert KeyOf(key, x) == k;
      AppendConsistent(key, c, x);
    }
  }

  /** Consistent collectors hand out distinct ids. */
  lemma IdsDistinct(key: KeyFn, c: Corpus)
    requires Consistent(key, c)
    ensures UniqueIds(c.items)
  {
    forall i, j | 0 <= i < j < |c.items|
      ensures c.items[i].id != c.items[j].id
    {
      if c.items[i].id == c.items[j].id {
        PrefixedNatInjective("item-", i + 1, j + 1);
      }
    }
  }

  /** Adding the same raw item twice is adding it once. */
  lemma AddIdempotent(key: KeyFn, merge: MergeFn, c: Corpus, raw: RawItem)
    requires KeepsIdentity(merge) && MergeIdempotentFn(merge) && OwnRawNeutral(merge)
    requires Consistent(key, c)
    ensures Add(key, merge, Add(key, merge, c, raw), raw) == Add(key, merge, c, raw)
  {
    if RawKey(key, raw) in c.seen {
      FindSeen(key, c, RawKey(key, raw));
      AddSeenIdempotent(key, merge, c, raw);
    } else {
      AddNewIdempotent(key, merge, c, raw);
    }
  }

  lemma {:induction false} AddSeenIdempotent(key: KeyFn, merge: MergeFn, c: Corpus, raw: RawItem)
    requires KeepsIdentity(merge) && MergeIdempotentFn(merge)
    requires RawKey(key, raw) in c.seen && FindKey(key, c.items, RawKey(key, raw)) < |c.items|
    ensures Add(key, merge, Add(key, merge, c, raw), raw) == Add(key, merge, c, raw)
  {
    var k := RawKey(key, raw);
    var i := FindKey(key, c.items, k);
    var m := merge(c.items[i], raw);
    var items := c.items[i := m];
    ReplaceKeepsKeys(key, c.items, i, m);
    FindKeyAgrees(key, c.items, items, k);
    assert merge(items[i], raw) == m;
    UpdateSame(items, i);
  }

  /** Writing an element back where it was changes nothing. */
  lemma UpdateSame<T>(s: seq<T>, i: nat)
    requires i < |s|
    ensures s[i := s[i]] == s
  {
  }

  lemma {:induction false} AddNewIdempotent(key: KeyFn, merge: MergeFn, c: Corpus, raw: RawItem)
    requires OwnRawNeutral(merge)
    requires c.seen == KeySet(key, c.items) && RawKey(key, raw) !in c.seen
    ensures Add(key, merge, Add(key, merge, c, raw), raw) == Add(key, merge, c, raw)
  {
    var x := WithId(NumberedId(c.nextId), raw);
    var items := c.items + [x];
    FindKeyAppended(key, c.items, x);
    assert merge(items[|c.items|], raw) == x;
    UpdateSame(items, |c.items|);
  }

  /** An item whose key is new is found where it was appended. */
  lemma {:induction false} FindKeyAppended(key: KeyFn, items: seq<StudyItem>, x: StudyItem)
    requires KeyOf(key, x) !in KeySet(key, items)
    ensures FindKey(key, items + [x], KeyOf(key, x)) == |items|
  {
    var s := items + [x];
    var r := FindKey(key, s, KeyOf(key, x));
    assert s[|items|] == x;
    assert r == |items|;
  }

  /** Lists with the same keys position by position find the same index. */
  lemma {:induction false} FindKeyAgrees(key: KeyFn, a: seq<StudyItem>, b: seq<StudyItem>, k: string)
    requires KeysAgree(key, a, b)
    ensures FindKey(key, a, k) == FindKey(key, b, k)
  {
    if a != [] {
      FindKeyAgrees(key, a[1..], b[1..], k);
    }
  }

  /** The global collector of the extractor. */
  class Extractor {
    /** The dedup key; the extractor sets it to KindSlug. */
    const key: KeyFn
    var items: seq<StudyItem>
    var seen: set<string>
    var nextId: nat

    function State(): Corpus
      reads this
    {
      Corpus(items, seen, nextId)
    }

    ghost predicate Valid()
      reads this
    {
      Consistent(key, State())
    }

    constructor()
      ensures key == KindSlug
      ensures Valid() && State() == Empty
    {
      key := KindSlug;
      items := [];
      seen := {};
      nextId := 1;
    }

    /** addItem: a new key appends the item with the next id; a seen key
        runs the field loop and the project rule on the item with that key
        in place. */
    method AddItem(raw: RawItem)
      requires Valid()
      modifies this
      ensures Valid()
      ensures State() == Add(key, Merge, old(State()), raw)
    {
      ghost var before := State();
      assert Consistent(key, Add(key, Merge, before, raw)) by {
        MergeLaws();
        AddConsistent(key, Merge, before, raw);
      }
      var k := RawKey(key, raw);
      if k in seen {
        var i := FindKey(key, items, k);
        if i < |items| {
          var merged := MergeInto(items[i], raw);
          items := items[i := merged];
        }
      } else {
        seen := seen + {k};
        items := items + [WithId(NumberedId(nextId), raw)];
        nextId := nextId + 1;
      }
      assert State() == Add(key, Merge, before, raw);
    }
  }
}
