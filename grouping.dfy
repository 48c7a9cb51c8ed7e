/**
 * The presenter, `groupAndSortReminders` in src/shoppingList.ts and its copy
 * `transformAndSortResults` in src/reminders.ts: rows are put in buckets by
 * aisle, and the buckets come out as text aisles in text order, then numbered
 * aisles in numeric order, then "Unknown".
 */
module Grouping {
  import opened Wrappers
  import opened Text
  import opened Sorting
  import opened Sync

  /** One group of the response, `ReminderGroup`. */
  datatype Group = Group(aisle: string, items: seq<Reminder>)

  /** The two kinds of bucket: the `aisles` record keyed by number, the `nonAisles` record keyed by text. */
  datatype Bucket = Numbered(number: nat) | Named(key: string)

  const Unknown: string := "Unknown"

  /**
   * The bucket of a row's aisle: a non-empty aisle matching `/^Aisle \d+$/` goes
   * by its number; anything else by its own text, a null aisle by "Unknown".
   */
  function BucketOf(aisle: Option<string>): Bucket {
    if aisle.Some? && aisle.value != "" && AisleNumber(aisle.value).Some? then Numbered(AisleNumber(aisle.value).value)
    else Named(if aisle.Some? then aisle.value else Unknown)
  }

  /** The label a bucket is shown under. */
  function BucketLabel(b: Bucket): string {
    match b
    case Numbered(n) => AisleLabel(n)
    case Named(k) => k
  }

  /** The label of the group an aisle value belongs to. */
  function LabelFor(aisle: Option<string>): string {
    BucketLabel(BucketOf(aisle))
  }

  function GroupLabel(x: Reminder): string {
    LabelFor(x.row.aisle)
  }

  lemma UnknownIsText()
    ensures AisleNumber(Unknown).None?
  {
    assert Unknown[..|AislePrefix|] == "Unknow";
  }

  /** Text bucket keys never look like a numbered aisle. */
  lemma NamedIsText(aisle: Option<string>)
    requires BucketOf(aisle).Named?
    ensures AisleNumber(BucketOf(aisle).key).None?
  {
    UnknownIsText();
  }

  /**
   * A label is read back as the bucket it came from, so rows share a label
   * exactly when they share a bucket.
   */
  lemma LabelNamesBucket(aisle: Option<string>)
    ensures BucketOf(Some(LabelFor(aisle))) == BucketOf(aisle)
  {
    match BucketOf(aisle)
    case Numbered(n) =>
      AisleLabelRoundTrip(n);
    case Named(k) =>
      NamedIsText(aisle);
  }

  lemma SameLabelSameBucket(a: Option<string>, b: Option<string>)
    ensures LabelFor(a) == LabelFor(b) <==> BucketOf(a) == BucketOf(b)
  {
    LabelNamesBucket(a);
    LabelNamesBucket(b);
  }

  /** "Aisle 07" and "Aisle 7" share the group "Aisle 7"; null and "Unknown" share "Unknown"; "" is its own group. */
  lemma SharedGroups()
    ensures LabelFor(Some("Aisle 07")) == LabelFor(Some("Aisle 7")) == "Aisle 7"
    ensures LabelFor(None) == LabelFor(Some(Unknown)) == Unknown
    ensures LabelFor(Some("")) == ""
  {
    LeadingZeroSameAisle();
    UnknownIsText();
    assert Decimal(7) == "7";
    assert AisleLabel(7) == "Aisle 7";
  }

  // ---------------------------------------------------------------------------
  // What a correct grouping is.

  /** The rows of `items` whose label is `tag`, in input order. */
  function Members(items: seq<Reminder>, tag: string): seq<Reminder>
    decreases |items|
  {
    if items == [] then []
    else Members(items[..|items| - 1], tag) + (if GroupLabel(items[|items| - 1]) == tag then [items[|items| - 1]] else [])
  }

  /** The rows of `items` whose label is in `labels`, in input order. */
  function MembersIn(items: seq<Reminder>, labels: set<string>): seq<Reminder>
    decreases |items|
  {
    if items == [] then []
    else MembersIn(items[..|items| - 1], labels) + (if GroupLabel(items[|items| - 1]) in labels then [items[|items| - 1]] else [])
  }

  function Labels(groups: seq<Group>): set<string> {
    set g | g in groups :: g.aisle
  }

  function Flatten(groups: seq<Group>): seq<Reminder>
    decreases |groups|
  {
    if groups == [] then [] else Flatten(groups[..|groups| - 1]) + groups[|groups| - 1].items
  }

  /** 0 for a text aisle, 1 for a numbered aisle, 2 for "Unknown". */
  function Rank(tag: string): nat {
    if tag == Unknown then 2 else if AisleNumber(tag).Some? then 1 else 0
  }

  /** The display order of labels: text aisles by text, numbered aisles by number, "Unknown" last. */
  predicate ShownBefore(a: string, b: string) {
    || Rank(a) < Rank(b)
    || (Rank(a) == 0 && Rank(b) == 0 && TextLess(a, b))
    || (Rank(a) == 1 && Rank(b) == 1 && AisleNumber(a).value < AisleNumber(b).value)
  }

  predicate InDisplayOrder(groups: seq<Group>) {
    forall i, j :: 0 <= i < j < |groups| ==> ShownBefore(groups[i].aisle, groups[j].aisle)
  }

  /**
   * `groups` presents `items`: each group holds exactly the rows with its label,
   * in input order, and is not empty; every row's tag has a group; the groups
   * are in display order.
   */
  ghost predicate Presents(items: seq<Reminder>, groups: seq<Group>) {
    && (forall j :: 0 <= j < |groups| ==> groups[j].items == Members(items, groups[j].aisle) && groups[j].items != [])
    && (forall x :: x in items ==> GroupLabel(x) in Labels(groups))
    && InDisplayOrder(groups)
  }

  lemma ShownBeforeStrict(a: string, b: string)
    ensures !ShownBefore(a, a)
    ensures ShownBefore(a, b) ==> !ShownBefore(b, a)
  {
    TextLessIrreflexive(a);
    TextLessAsymmetric(a, b);
  }

  lemma {:induction false} MembersLabelled(items: seq<Reminder>, tag: string)
    ensures forall x :: x in Members(items, tag) <==> x in items && GroupLabel(x) == tag
    decreases |items|
  {
    if items != [] {
      MembersLabelled(items[..|items| - 1], tag);
      assert items == items[..|items| - 1] + [items[|items| - 1]];
    }
  }

  /** Two disjoint selections together select as many of each row as their union. */
  lemma {:induction false} MembersSplit(items: seq<Reminder>, labels: set<string>, tag: string)
    requires tag !in labels
    ensures multiset(MembersIn(items, labels)) + multiset(Members(items, tag)) == multiset(MembersIn(items, labels + {tag}))
    decreases |items|
  {
    if items != [] {
      MembersSplit(items[..|items| - 1], labels, tag);
    }
  }

  lemma {:induction false} MembersInAll(items: seq<Reminder>, labels: set<string>)
    requires forall i :: 0 <= i < |items| ==> GroupLabel(items[i]) in labels
    ensures MembersIn(items, labels) == items
    decreases |items|
  {
    if items != [] {
      var init := items[..|items| - 1];
      forall i | 0 <= i < |init| ensures GroupLabel(init[i]) in labels {
        assert init[i] == items[i];
      }
      MembersInAll(init, labels);
      assert items == init + [items[|items| - 1]];
    }
  }

  lemma {:induction false} FlattenSelects(items: seq<Reminder>, groups: seq<Group>)
    requires forall j :: 0 <= j < |groups| ==> groups[j].items == Members(items, groups[j].aisle)
    requires forall i, j :: 0 <= i < j < |groups| ==> groups[i].aisle != groups[j].aisle
    ensures multiset(Flatten(groups)) == multiset(MembersIn(items, Labels(groups)))
    decreases |groups|
  {
    if groups == [] {
      assert Labels(groups) == {};
      MembersInNone(items);
    } else {
      var init, last := groups[..|groups| - 1], groups[|groups| - 1];
      FlattenSelects(items, init);
      assert groups == init + [last];
      assert Labels(groups) == Labels(init) + {last.aisle};
      assert last.aisle !in Labels(init);
      MembersSplit(items, Labels(init), last.aisle);
    }
  }

  lemma {:induction false} MembersInNone(items: seq<Reminder>)
    ensures MembersIn(items, {}) == []
    decreases |items|
  {
    if items != [] {
      MembersInNone(items[..|items| - 1]);
    }
  }

  /** Every row appears in exactly one group: the groups' items are a permutation of the rows. */
  lemma PresentsPermutation(items: seq<Reminder>, groups: seq<Group>)
    requires Presents(items, groups)
    ensures multiset(Flatten(groups)) == multiset(items)
  {
    forall i, j | 0 <= i < j < |groups| ensures groups[i].aisle != groups[j].aisle {
      ShownBeforeStrict(groups[i].aisle, groups[j].aisle);
    }
    FlattenSelects(items, groups);
    forall i | 0 <= i < |items| ensures GroupLabel(items[i]) in Labels(groups) {
      assert items[i] in items;
    }
    MembersInAll(items, Labels(groups));
  }

  /** Labels in display order are pairwise distinct. */
  lemma DisplayOrderDistinct(groups: seq<Group>)
    requires InDisplayOrder(groups)
    ensures forall i, j :: 0 <= i < j < |groups| ==> groups[i].aisle != groups[j].aisle
  {
    forall i, j | 0 <= i < j < |groups| ensures groups[i].aisle != groups[j].aisle {
      ShownBeforeStrict(groups[i].aisle, groups[j].aisle);
    }
  }

  /** "Unknown", if it is a label at all, labels the last group and no other. */
  lemma UnknownLast(items: seq<Reminder>, groups: seq<Group>)
    requires Presents(items, groups)
    ensures Unknown in Labels(groups) ==> groups[|groups| - 1].aisle == Unknown
    ensures forall j :: 0 <= j < |groups| - 1 ==> groups[j].aisle != Unknown
  {
    forall j | 0 <= j < |groups| - 1 ensures groups[j].aisle != Unknown {
      assert ShownBefore(groups[j].aisle, groups[|groups| - 1].aisle);
    }
  }

  /** Two label sequences in display order with the same labels are the same sequence. */
  lemma {:induction false} DisplayOrderUnique(g1: seq<Group>, g2: seq<Group>)
    requires InDisplayOrder(g1) && InDisplayOrder(g2) && Labels(g1) == Labels(g2)
    ensures |g1| == |g2| && forall j :: 0 <= j < |g1| ==> g1[j].aisle == g2[j].aisle
    decreases |g1|
  {
    if g1 == [] {
      assert g2 == [] by {
        assert Labels(g2) == {};
        assert forall k :: 0 <= k < |g2| ==> g2[k] in g2 && g2[k].aisle in Labels(g2);
      }
    } else {
      assert g2 != [] by {
        assert g1[0].aisle in Labels(g2);
      }
      var a, b := g1[0].aisle, g2[0].aisle;
      assert a == b by {
        assert a in Labels(g2) && b in Labels(g1);
        var k :| 0 <= k < |g2| && g2[k].aisle == a;
        var m :| 0 <= m < |g1| && g1[m].aisle == b;
        if a != b {
          assert k > 0 && m > 0;
          ShownBeforeStrict(a, b);
        }
      }
      DisplayOrderDistinct(g1);
      DisplayOrderDistinct(g2);
      var t1, t2 := g1[1..], g2[1..];
      assert g1 == [g1[0]] + t1 && g2 == [g2[0]] + t2;
      assert Labels(t1) == Labels(g1) - {a} by {
        assert forall g :: g in t1 ==> g.aisle != a;
      }
      assert Labels(t2) == Labels(g2) - {b} by {
        assert forall g :: g in t2 ==> g.aisle != b;
      }
      DisplayOrderUnique(t1, t2);
    }
  }

  /** The grouping of a list of rows is determined: any two presentations of it are equal. */
  lemma PresentsUnique(items: seq<Reminder>, g1: seq<Group>, g2: seq<Group>)
    requires Presents(items, g1) && Presents(items, g2)
    ensures g1 == g2
  {
    forall a | a in Labels(g1) ensures a in Labels(g2) {
      var j :| 0 <= j < |g1| && g1[j].aisle == a;
      MembersLabelled(items, a);
      var x := g1[j].items[0];
      assert x in items && GroupLabel(x) == a;
    }
    forall a | a in Labels(g2) ensures a in Labels(g1) {
      var j :| 0 <= j < |g2| && g2[j].aisle == a;
      MembersLabelled(items, a);
      var x := g2[j].items[0];
      assert x in items && GroupLabel(x) == a;
    }
    DisplayOrderUnique(g1, g2);
  }

  // ---------------------------------------------------------------------------
  // The presenter.

  /** The rows of `items` in bucket `b`, in input order: the contents of one bucket array. */
  function InBucket(items: seq<Reminder>, b: Bucket): seq<Reminder>
    decreases |items|
  {
    if items == [] then []
    else InBucket(items[..|items| - 1], b) + (if BucketOf(items[|items| - 1].row.aisle) == b then [items[|items| - 1]] else [])
  }

  /** A bucket that some aisle value can land in. */
  predicate Reachable(b: Bucket) {
    BucketOf(Some(BucketLabel(b))) == b
  }

  lemma {:induction false} InBucketIsMembers(items: seq<Reminder>, b: Bucket)
    requires Reachable(b)
    ensures InBucket(items, b) == Members(items, BucketLabel(b))
    decreases |items|
  {
    if items != [] {
      var x := items[|items| - 1];
      InBucketIsMembers(items[..|items| - 1], b);
      LabelNamesBucket(x.row.aisle);
    }
  }

  lemma NumberedReachable(n: nat)
    ensures Reachable(Numbered(n))
  {
    AisleLabelRoundTrip(n);
  }

  /** `findIndex` on the group labels: the first position labelled `tag`, or -1. */
  function FindIndex(groups: seq<Group>, tag: string): (i: int)
    ensures -1 <= i < |groups|
    ensures i == -1 <==> forall j :: 0 <= j < |groups| ==> groups[j].aisle != tag
    ensures i >= 0 ==> groups[i].aisle == tag && forall j :: 0 <= j < i ==> groups[j].aisle != tag
    decreases |groups|
  {
    if groups == [] then -1
    else if groups[0].aisle == tag then 0
    else
      var r := FindIndex(groups[1..], tag);
      if r == -1 then -1 else r + 1
  }

  /** Each group of `gs` holds the rows of its label and is not empty. */
  ghost predicate Faithful(items: seq<Reminder>, gs: seq<Group>) {
    forall j :: 0 <= j < |gs| ==> gs[j].items == Members(items, gs[j].aisle) && gs[j].items != []
  }

  lemma ConcatInDisplayOrder(a: seq<Group>, b: seq<Group>)
    requires InDisplayOrder(a) && InDisplayOrder(b)
    requires forall i, j :: 0 <= i < |a| && 0 <= j < |b| ==> ShownBefore(a[i].aisle, b[j].aisle)
    ensures InDisplayOrder(a + b)
  {
    forall i, j | 0 <= i < j < |a + b| ensures ShownBefore((a + b)[i].aisle, (a + b)[j].aisle) {
      if j < |a| {
        assert (a + b)[i] == a[i] && (a + b)[j] == a[j];
      } else if i >= |a| {
        assert (a + b)[i] == b[i - |a|] && (a + b)[j] == b[j - |a|];
      } else {
        assert (a + b)[i] == a[i] && (a + b)[j] == b[j - |a|];
      }
    }
  }

  /** Where a row has gone. */
  predicate Filed(b: Bucket, nonAisles: map<string, seq<Reminder>>, aisles: map<nat, seq<Reminder>>) {
    match b
    case Numbered(n) => n in aisles
    case Named(k) => k in nonAisles
  }

  /** `keys` lists the keys of `m`, each once: what `Object.keys` returns. */
  ghost predicate Listed<K(!new)>(m: map<K, seq<Reminder>>, keys: seq<K>) {
    (forall k :: k in m <==> k in keys) && Distinct(keys)
  }

  /** Every text bucket holds the rows of its key, in input order, and its key is no numbered aisle. */
  ghost predicate TextBucketsHold(results: seq<Reminder>, nonAisles: map<string, seq<Reminder>>) {
    forall k :: k in nonAisles ==>
      AisleNumber(k).None? && nonAisles[k] == InBucket(results, Named(k)) && nonAisles[k] != []
  }

  ghost predicate NumberBucketsHold(results: seq<Reminder>, aisles: map<nat, seq<Reminder>>) {
    forall n :: n in aisles ==> aisles[n] == InBucket(results, Numbered(n)) && aisles[n] != []
  }

  predicate AllFiled(results: seq<Reminder>, nonAisles: map<string, seq<Reminder>>, aisles: map<nat, seq<Reminder>>) {
    forall j :: 0 <= j < |results| ==> Filed(BucketOf(results[j].row.aisle), nonAisles, aisles)
  }

  /**
   * The two bucket records after the `forEach`: every key listed once, every
   * bucket the rows of its key in input order, every row filed.
   */
  ghost predicate Buckets(
    results: seq<Reminder>,
    nonAisles: map<string, seq<Reminder>>, nonAisleKeys: seq<string>,
    aisles: map<nat, seq<Reminder>>, aisleKeys: seq<nat>)
  {
    && Listed(nonAisles, nonAisleKeys)
    && Listed(aisles, aisleKeys)
    && TextBucketsHold(results, nonAisles)
    && NumberBucketsHold(results, aisles)
    && AllFiled(results, nonAisles, aisles)
  }

  lemma InBucketSnoc(p: seq<Reminder>, x: Reminder, b: Bucket)
    ensures InBucket(p + [x], b) == InBucket(p, b) + (if BucketOf(x.row.aisle) == b then [x] else [])
  {
    assert (p + [x])[..|p|] == p;
  }

  /** A bucket no row is filed in is empty. */
  lemma {:induction false} InBucketEmpty(p: seq<Reminder>, b: Bucket)
    requires forall j :: 0 <= j < |p| ==> BucketOf(p[j].row.aisle) != b
    ensures InBucket(p, b) == []
    decreases |p|
  {
    if p != [] {
      var init := p[..|p| - 1];
      forall j | 0 <= j < |init| ensures BucketOf(init[j].row.aisle) != b {
        assert init[j] == p[j];
      }
      InBucketEmpty(init, b);
    }
  }

  /** Pushing onto a bucket, created if missing, keeps the key list right. */
  lemma ListedPush<K(!new)>(m: map<K, seq<Reminder>>, keys: seq<K>, k: K, x: Reminder)
    requires Listed(m, keys)
    ensures var created := if k in m then m else m[k := []];
      Listed(created[k := created[k] + [x]], if k in m then keys else keys + [k])
  {
  }

  lemma FiledPush(p: seq<Reminder>, x: Reminder, nonAisles: map<string, seq<Reminder>>, aisles: map<nat, seq<Reminder>>,
                  nonAisles': map<string, seq<Reminder>>, aisles': map<nat, seq<Reminder>>)
    requires AllFiled(p, nonAisles, aisles)
    requires nonAisles.Keys <= nonAisles'.Keys && aisles.Keys <= aisles'.Keys
    requires Filed(BucketOf(x.row.aisle), nonAisles', aisles')
    ensures AllFiled(p + [x], nonAisles', aisles')
  {
    var p' := p + [x];
    forall j | 0 <= j < |p'| ensures Filed(BucketOf(p'[j].row.aisle), nonAisles', aisles') {
      if j < |p| {
        assert p'[j] == p[j];
        assert Filed(BucketOf(p[j].row.aisle), nonAisles, aisles);
      }
    }
  }

  /** A key not yet in the record has no row filed under it so far. */
  lemma NotFiledEmpty(p: seq<Reminder>, nonAisles: map<string, seq<Reminder>>, aisles: map<nat, seq<Reminder>>, b: Bucket)
    requires AllFiled(p, nonAisles, aisles) && !Filed(b, nonAisles, aisles)
    ensures InBucket(p, b) == []
  {
    forall j | 0 <= j < |p| ensures BucketOf(p[j].row.aisle) != b {
      assert Filed(BucketOf(p[j].row.aisle), nonAisles, aisles);
    }
    InBucketEmpty(p, b);
  }

  /** Pushing a numbered row keeps the bucket records right for the longer prefix. */
  lemma PushNumbered(
    p: seq<Reminder>, x: Reminder,
    nonAisles: map<string, seq<Reminder>>, nonAisleKeys: seq<string>,
    aisles: map<nat, seq<Reminder>>, aisleKeys: seq<nat>, n: nat)
    requires Buckets(p, nonAisles, nonAisleKeys, aisles, aisleKeys)
    requires BucketOf(x.row.aisle) == Numbered(n)
    ensures var created := if n in aisles then aisles else aisles[n := []];
      Buckets(p + [x], nonAisles, nonAisleKeys,
              created[n := created[n] + [x]], if n in aisles then aisleKeys else aisleKeys + [n])
  {
    var created := if n in aisles then aisles else aisles[n := []];
    var aisles' := created[n := created[n] + [x]];
    var p' := p + [x];
    ListedPush(aisles, aisleKeys, n, x);
    if n !in aisles {
      NotFiledEmpty(p, nonAisles, aisles, Numbered(n));
    }
    forall k | k in nonAisles
      ensures AisleNumber(k).None? && nonAisles[k] == InBucket(p', Named(k)) && nonAisles[k] != []
    {
      InBucketSnoc(p, x, Named(k));
    }
    forall m | m in aisles' ensures aisles'[m] == InBucket(p', Numbered(m)) && aisles'[m] != [] {
      InBucketSnoc(p, x, Numbered(m));
    }
    FiledPush(p, x, nonAisles, aisles, nonAisles, aisles');
  }

  /** Pushing a text row keeps the bucket records right for the longer prefix. */
  lemma PushNamed(
    p: seq<Reminder>, x: Reminder,
    nonAisles: map<string, seq<Reminder>>, nonAisleKeys: seq<string>,
    aisles: map<nat, seq<Reminder>>, aisleKeys: seq<nat>, k: string)
    requires Buckets(p, nonAisles, nonAisleKeys, aisles, aisleKeys)
    requires BucketOf(x.row.aisle) == Named(k)
    ensures var created := if k in nonAisles then nonAisles else nonAisles[k := []];
      Buckets(p + [x], created[k := created[k] + [x]], if k in nonAisles then nonAisleKeys else nonAisleKeys + [k],
              aisles, aisleKeys)
  {
    var created := if k in nonAisles then nonAisles else nonAisles[k := []];
    var nonAisles' := created[k := created[k] + [x]];
    var p' := p + [x];
    NamedIsText(x.row.aisle);
    ListedPush(nonAisles, nonAisleKeys, k, x);
    if k !in nonAisles {
      NotFiledEmpty(p, nonAisles, aisles, Named(k));
    }
    forall t | t in nonAisles'
      ensures AisleNumber(t).None? && nonAisles'[t] == InBucket(p', Named(t)) && nonAisles'[t] != []
    {
      InBucketSnoc(p, x, Named(t));
    }
    forall m | m in aisles ensures aisles[m] == InBucket(p', Numbered(m)) && aisles[m] != [] {
      InBucketSnoc(p, x, Numbered(m));
    }
    FiledPush(p, x, nonAisles, aisles, nonAisles', aisles);
  }

  /** The `forEach` of the presenter: push each row onto the array of its bucket, creating it when missing. */
  method FillBuckets(results: seq<Reminder>)
    returns (nonAisles: map<string, seq<Reminder>>, nonAisleKeys: seq<string>,
             aisles: map<nat, seq<Reminder>>, aisleKeys: seq<nat>)
    ensures Buckets(results, nonAisles, nonAisleKeys, aisles, aisleKeys)
  {
    nonAisles, nonAisleKeys, aisles, aisleKeys := map[], [], map[], [];
    for i := 0 to |results|
      invariant Buckets(results[..i], nonAisles, nonAisleKeys, aisles, aisleKeys)
    {
      var item := results[i];
      assert results[..i + 1] == results[..i] + [item];
      match BucketOf(item.row.aisle) {
        case Numbered(n) =>
          PushNumbered(results[..i], item, nonAisles, nonAisleKeys, aisles, aisleKeys, n);
          if n !in aisles {
            aisles := aisles[n := []];
            aisleKeys := aisleKeys + [n];
          }
          aisles := aisles[n := aisles[n] + [item]];
        case Named(k) =>
          PushNamed(results[..i], item, nonAisles, nonAisleKeys, aisles, aisleKeys, k);
          if k !in nonAisles {
            nonAisles := nonAisles[k := []];
            nonAisleKeys := nonAisleKeys + [k];
          }
          nonAisles := nonAisles[k := nonAisles[k] + [item]];
      }
    }
    assert results[..|results|] == results;
  }

  /** The text groups before the splice: sorted text keys with their buckets. */
  lemma TextGroupsHold(results: seq<Reminder>, nonAisles: map<string, seq<Reminder>>, keys: seq<string>, tg: seq<Group>)
    requires TextBucketsHold(results, nonAisles) && TextIncreasing(keys)
    requires |tg| == |keys|
    requires forall j :: 0 <= j < |keys| ==> keys[j] in nonAisles && tg[j] == Group(keys[j], nonAisles[keys[j]])
    ensures Faithful(results, tg)
    ensures forall j :: 0 <= j < |tg| ==> tg[j].aisle == Unknown || Rank(tg[j].aisle) == 0
    ensures forall i, j :: 0 <= i < j < |tg| ==> TextLess(tg[i].aisle, tg[j].aisle)
  {
    forall j | 0 <= j < |tg| ensures tg[j].items == Members(results, tg[j].aisle) && tg[j].items != [] {
      InBucketIsMembers(results, Named(keys[j]));
    }
  }

  /** Taking the "Unknown" group out leaves text groups in display order. */
  lemma SpliceUnknown(results: seq<Reminder>, tg: seq<Group>, u: int)
    requires Faithful(results, tg)
    requires forall j :: 0 <= j < |tg| ==> tg[j].aisle == Unknown || Rank(tg[j].aisle) == 0
    requires forall i, j :: 0 <= i < j < |tg| ==> TextLess(tg[i].aisle, tg[j].aisle)
    requires u == FindIndex(tg, Unknown)
    ensures var t := if u == -1 then tg else tg[..u] + tg[u + 1..];
      && Faithful(results, t)
      && (forall j :: 0 <= j < |t| ==> Rank(t[j].aisle) == 0)
      && InDisplayOrder(t)
      && Labels(tg) == Labels(t) + (if u == -1 then {} else {Unknown})
    ensures u != -1 ==> Faithful(results, [tg[u]]) && tg[u].aisle == Unknown
  {
    if u == -1 {
      NoUnknownOrdered(tg);
    } else {
      SpliceFaithful(results, tg, u);
      SpliceOrdered(tg, u);
      SpliceLabels(tg, u);
    }
  }

  lemma NoUnknownOrdered(tg: seq<Group>)
    requires forall j :: 0 <= j < |tg| ==> tg[j].aisle != Unknown
    requires forall j :: 0 <= j < |tg| ==> tg[j].aisle == Unknown || Rank(tg[j].aisle) == 0
    requires forall i, j :: 0 <= i < j < |tg| ==> TextLess(tg[i].aisle, tg[j].aisle)
    ensures forall j :: 0 <= j < |tg| ==> Rank(tg[j].aisle) == 0
    ensures InDisplayOrder(tg)
  {
  }

  lemma SpliceLabels(tg: seq<Group>, u: int)
    requires 0 <= u < |tg| && tg[u].aisle == Unknown
    ensures Labels(tg) == Labels(tg[..u] + tg[u + 1..]) + {Unknown}
  {
    assert tg == tg[..u] + [tg[u]] + tg[u + 1..];
    LabelsConcat(tg[..u] + [tg[u]], tg[u + 1..]);
    LabelsConcat(tg[..u], [tg[u]]);
    LabelsConcat(tg[..u], tg[u + 1..]);
    assert Labels([tg[u]]) == {Unknown};
  }

  /** Where each group of the spliced sequence sits in the original. */
  lemma RemoveAt(tg: seq<Group>, u: int)
    requires 0 <= u < |tg|
    ensures var t := tg[..u] + tg[u + 1..];
      && |t| == |tg| - 1
      && (forall j :: 0 <= j < u ==> t[j] == tg[j])
      && (forall j :: u <= j < |t| ==> t[j] == tg[j + 1])
  {
  }

  lemma SpliceFaithful(results: seq<Reminder>, tg: seq<Group>, u: int)
    requires 0 <= u < |tg| && Faithful(results, tg)
    ensures Faithful(results, tg[..u] + tg[u + 1..]) && Faithful(results, [tg[u]])
  {
    RemoveAt(tg, u);
  }

  lemma SpliceOrdered(tg: seq<Group>, u: int)
    requires 0 <= u < |tg| && tg[u].aisle == Unknown
    requires forall j :: 0 <= j < |tg| ==> tg[j].aisle == Unknown || Rank(tg[j].aisle) == 0
    requires forall i, j :: 0 <= i < j < |tg| ==> TextLess(tg[i].aisle, tg[j].aisle)
    ensures var t := tg[..u] + tg[u + 1..];
      && (forall j :: 0 <= j < |t| ==> Rank(t[j].aisle) == 0)
      && InDisplayOrder(t)
  {
    RemoveAt(tg, u);
    var t := tg[..u] + tg[u + 1..];
    TextLessIrreflexive(Unknown);
    forall j | 0 <= j < |tg| && j != u ensures tg[j].aisle != Unknown {
      if j < u {
        assert TextLess(tg[j].aisle, tg[u].aisle);
      } else {
        assert TextLess(tg[u].aisle, tg[j].aisle);
      }
    }
    forall j | 0 <= j < |t| ensures Rank(t[j].aisle) == 0 {
      if j < u {
        assert t[j] == tg[j];
      } else {
        assert t[j] == tg[j + 1];
      }
    }
    forall i, j | 0 <= i < j < |t| ensures TextLess(t[i].aisle, t[j].aisle) {
      var i' := if i < u then i else i + 1;
      var j' := if j < u then j else j + 1;
      assert t[i] == tg[i'] && t[j] == tg[j'] && i' < j';
    }
  }

  /** The numbered groups: sorted numbers with their buckets. */
  lemma NumberGroupsHold(results: seq<Reminder>, aisles: map<nat, seq<Reminder>>, nums: seq<nat>, ng: seq<Group>)
    requires NumberBucketsHold(results, aisles) && NumbersIncreasing(nums)
    requires |ng| == |nums|
    requires forall j :: 0 <= j < |nums| ==> nums[j] in aisles && ng[j] == Group(AisleLabel(nums[j]), aisles[nums[j]])
    ensures Faithful(results, ng)
    ensures forall j :: 0 <= j < |ng| ==> Rank(ng[j].aisle) == 1
    ensures InDisplayOrder(ng)
  {
    UnknownIsText();
    forall j | 0 <= j < |ng|
      ensures ng[j].items == Members(results, ng[j].aisle) && ng[j].items != []
      ensures AisleNumber(ng[j].aisle) == Some(nums[j]) && Rank(ng[j].aisle) == 1
    {
      NumberedReachable(nums[j]);
      InBucketIsMembers(results, Numbered(nums[j]));
      AisleLabelRoundTrip(nums[j]);
    }
  }

  /** Text groups, then numbered groups, then at most the "Unknown" group. */
  lemma Assemble(results: seq<Reminder>, t: seq<Group>, ng: seq<Group>, ug: seq<Group>)
    requires Faithful(results, t) && Faithful(results, ng) && Faithful(results, ug)
    requires forall j :: 0 <= j < |t| ==> Rank(t[j].aisle) == 0
    requires forall j :: 0 <= j < |ng| ==> Rank(ng[j].aisle) == 1
    requires |ug| <= 1 && forall j :: 0 <= j < |ug| ==> ug[j].aisle == Unknown
    requires InDisplayOrder(t) && InDisplayOrder(ng)
    ensures Faithful(results, t + ng + ug)
    ensures InDisplayOrder(t + ng + ug)
    ensures Labels(t + ng + ug) == Labels(t) + Labels(ng) + Labels(ug)
  {
    ConcatInDisplayOrder(t, ng);
    ConcatInDisplayOrder(t + ng, ug);
    var all := t + ng + ug;
    forall j | 0 <= j < |all| ensures all[j].items == Members(results, all[j].aisle) && all[j].items != [] {
      if j < |t| {
        assert all[j] == t[j];
      } else if j < |t| + |ng| {
        assert all[j] == ng[j - |t|];
      } else {
        assert all[j] == ug[j - |t| - |ng|];
      }
    }
    LabelsConcat(t, ng);
    LabelsConcat(t + ng, ug);
  }

  lemma LabelsConcat(a: seq<Group>, b: seq<Group>)
    ensures Labels(a + b) == Labels(a) + Labels(b)
  {
    assert forall g :: g in a + b <==> g in a || g in b;
  }

  /** Every row's label is among the labels of the keys in the two records. */
  lemma Covered(
    results: seq<Reminder>,
    nonAisles: map<string, seq<Reminder>>, aisles: map<nat, seq<Reminder>>, labels: set<string>)
    requires AllFiled(results, nonAisles, aisles)
    requires forall k :: k in nonAisles ==> k in labels
    requires forall n :: n in aisles ==> AisleLabel(n) in labels
    ensures forall x :: x in results ==> GroupLabel(x) in labels
  {
    forall x | x in results ensures GroupLabel(x) in labels {
      var j :| 0 <= j < |results| && results[j] == x;
      assert Filed(BucketOf(results[j].row.aisle), nonAisles, aisles);
    }
  }

  /** One group per text key, in the keys' order, holding that key's bucket. */
  function TextGroups(keys: seq<string>, nonAisles: map<string, seq<Reminder>>): seq<Group>
    requires forall j :: 0 <= j < |keys| ==> keys[j] in nonAisles
  {
    seq(|keys|, j requires 0 <= j < |keys| => Group(keys[j], nonAisles[keys[j]]))
  }

  /** One group per aisle number, in the numbers' order, labelled with the number and holding its bucket. */
  function NumberGroups(nums: seq<nat>, aisles: map<nat, seq<Reminder>>): seq<Group>
    requires forall j :: 0 <= j < |nums| ==> nums[j] in aisles
  {
    seq(|nums|, j requires 0 <= j < |nums| => Group(AisleLabel(nums[j]), aisles[nums[j]]))
  }

  lemma SortedKeysListed<K>(keys: seq<K>, sorted: seq<K>, m: map<K, seq<Reminder>>)
    requires forall k :: k in m <==> k in keys
    requires multiset(sorted) == multiset(keys)
    ensures forall j :: 0 <= j < |sorted| ==> sorted[j] in m
    ensures forall k :: k in m ==> k in sorted
  {
    forall j | 0 <= j < |sorted| ensures sorted[j] in m {
      assert sorted[j] in multiset(keys);
    }
    forall k | k in m ensures k in sorted {
      assert k in multiset(sorted);
    }
  }

  /** The text groups of the sorted keys, before the splice. */
  lemma TextPhase(results: seq<Reminder>, nonAisles: map<string, seq<Reminder>>, nonAisleKeys: seq<string>, sortedKeys: seq<string>)
    requires Listed(nonAisles, nonAisleKeys) && TextBucketsHold(results, nonAisles)
    requires multiset(sortedKeys) == multiset(nonAisleKeys) && TextIncreasing(sortedKeys)
    requires forall j :: 0 <= j < |sortedKeys| ==> sortedKeys[j] in nonAisles
    ensures var tg := TextGroups(sortedKeys, nonAisles);
      && Faithful(results, tg)
      && (forall j :: 0 <= j < |tg| ==> tg[j].aisle == Unknown || Rank(tg[j].aisle) == 0)
      && (forall i, j :: 0 <= i < j < |tg| ==> TextLess(tg[i].aisle, tg[j].aisle))
      && (forall k :: k in nonAisles ==> k in Labels(tg))
  {
    var tg := TextGroups(sortedKeys, nonAisles);
    TextGroupsHold(results, nonAisles, sortedKeys, tg);
    SortedKeysListed(nonAisleKeys, sortedKeys, nonAisles);
    forall k | k in nonAisles ensures k in Labels(tg) {
      var j :| 0 <= j < |sortedKeys| && sortedKeys[j] == k;
      assert tg[j].aisle == k;
    }
  }

  /** The numbered groups of the sorted numbers. */
  lemma NumberPhase(results: seq<Reminder>, aisles: map<nat, seq<Reminder>>, aisleKeys: seq<nat>, sortedNumbers: seq<nat>)
    requires Listed(aisles, aisleKeys) && NumberBucketsHold(results, aisles)
    requires multiset(sortedNumbers) == multiset(aisleKeys) && NumbersIncreasing(sortedNumbers)
    requires forall j :: 0 <= j < |sortedNumbers| ==> sortedNumbers[j] in aisles
    ensures var ng := NumberGroups(sortedNumbers, aisles);
      && Faithful(results, ng)
      && (forall j :: 0 <= j < |ng| ==> Rank(ng[j].aisle) == 1)
      && InDisplayOrder(ng)
      && (forall n :: n in aisles ==> AisleLabel(n) in Labels(ng))
  {
    var ng := NumberGroups(sortedNumbers, aisles);
    NumberGroupsHold(results, aisles, sortedNumbers, ng);
    SortedKeysListed(aisleKeys, sortedNumbers, aisles);
    forall n | n in aisles ensures AisleLabel(n) in Labels(ng) {
      var j :| 0 <= j < |sortedNumbers| && sortedNumbers[j] == n;
      assert ng[j].aisle == AisleLabel(n);
    }
  }

  /** The three segments together present the rows. */
  lemma AssemblePhase(
    results: seq<Reminder>, nonAisles: map<string, seq<Reminder>>, aisles: map<nat, seq<Reminder>>,
    tg: seq<Group>, u: int, t: seq<Group>, ng: seq<Group>, ug: seq<Group>)
    requires AllFiled(results, nonAisles, aisles)
    requires Faithful(results, tg)
    requires forall j :: 0 <= j < |tg| ==> tg[j].aisle == Unknown || Rank(tg[j].aisle) == 0
    requires forall i, j :: 0 <= i < j < |tg| ==> TextLess(tg[i].aisle, tg[j].aisle)
    requires forall k :: k in nonAisles ==> k in Labels(tg)
    requires u == FindIndex(tg, Unknown)
    requires t == (if u == -1 then tg else tg[..u] + tg[u + 1..])
    requires ug == (if u == -1 then [] else [tg[u]])
    requires Faithful(results, ng) && InDisplayOrder(ng)
    requires forall j :: 0 <= j < |ng| ==> Rank(ng[j].aisle) == 1
    requires forall n :: n in aisles ==> AisleLabel(n) in Labels(ng)
    ensures Presents(results, t + ng + ug)
  {
    SpliceUnknown(results, tg, u);
    Assemble(results, t, ng, ug);
    Covered(results, nonAisles, aisles, Labels(t + ng + ug));
  }

  /**
   * `groupAndSortReminders` (and its copy `transformAndSortResults`): fill
   * the two bucket records, sort their keys, take the "Unknown" group out of
   * the text groups and append it after the numbered ones.
   */
  method GroupAndSort(results: seq<Reminder>) returns (groups: seq<Group>)
    ensures Presents(results, groups)
  {
    var nonAisles, nonAisleKeys, aisles, aisleKeys := FillBuckets(results);

    var sortedKeys := SortText(nonAisleKeys);
    SortTextIncreasing(nonAisleKeys);
    SortedKeysListed(nonAisleKeys, sortedKeys, nonAisles);
    var sortedNonAisles := TextGroups(sortedKeys, nonAisles);
    TextPhase(results, nonAisles, nonAisleKeys, sortedKeys);
    ghost var textGroups := sortedNonAisles;

    var unknownGroup: seq<Group> := [];
    var unknownIndex := FindIndex(sortedNonAisles, Unknown);
    if unknownIndex != -1 {
      unknownGroup := [sortedNonAisles[unknownIndex]];
      sortedNonAisles := sortedNonAisles[..unknownIndex] + sortedNonAisles[unknownIndex + 1..];
    }

    var sortedNumbers := SortNumbers(aisleKeys);
    SortNumbersIncreasing(aisleKeys);
    SortedKeysListed(aisleKeys, sortedNumbers, aisles);
    var sortedAisles := NumberGroups(sortedNumbers, aisles);
    NumberPhase(results, aisles, aisleKeys, sortedNumbers);

    groups := sortedNonAisles + sortedAisles + unknownGroup;
    AssemblePhase(results, nonAisles, aisles, textGroups, unknownIndex, sortedNonAisles, sortedAisles, unknownGroup);
  }

  // ---------------------------------------------------------------------------
  // A worked example: "Aisle 10", "Aisle 2", "Drinks" and a row not yet looked up.

  function ExampleRow(id: string, aisle: Option<string>): Reminder {
    Reminder(id, Row(id, aisle, None, false, 0, 0))
  }

  function ExampleRows(): seq<Reminder> {
    [ExampleRow("a", Some("Aisle 10")), ExampleRow("b", Some("Aisle 2")),
     ExampleRow("c", Some("Drinks")), ExampleRow("d", None)]
  }

  function ExampleGroups(): seq<Group> {
    var rows := ExampleRows();
    [Group("Drinks", [rows[2]]), Group("Aisle 2", [rows[1]]), Group("Aisle 10", [rows[0]]), Group(Unknown, [rows[3]])]
  }

  /** Text aisles first, then numbered aisles by number (2 before 10), then "Unknown". */
  lemma ExampleGrouping(groups: seq<Group>)
    requires Presents(ExampleRows(), groups)
    ensures groups == [
      Group("Drinks", [ExampleRows()[2]]),
      Group("Aisle 2", [ExampleRows()[1]]),
      Group("Aisle 10", [ExampleRows()[0]]),
      Group(Unknown, [ExampleRows()[3]])]
  {
    ExamplePresents();
    PresentsUnique(ExampleRows(), ExampleGroups(), groups);
  }

  lemma ExamplePresents()
    ensures Presents(ExampleRows(), ExampleGroups())
  {
    ExampleFaithful();
    ExampleCovered();
    ExampleOrder();
  }

  lemma ExampleFaithful()
    ensures Faithful(ExampleRows(), ExampleGroups())
  {
    var rows, expected := ExampleRows(), ExampleGroups();
    ExampleLabels();
    ExampleMembers("Drinks");
    assert Members(rows, "Drinks") == [rows[2]];
    ExampleMembers("Aisle 2");
    assert Members(rows, "Aisle 2") == [rows[1]];
    ExampleMembers("Aisle 10");
    assert Members(rows, "Aisle 10") == [rows[0]];
    ExampleMembers(Unknown);
    assert Members(rows, Unknown) == [rows[3]];
  }

  lemma ExampleCovered()
    ensures forall x :: x in ExampleRows() ==> GroupLabel(x) in Labels(ExampleGroups())
  {
    var rows, expected := ExampleRows(), ExampleGroups();
    ExampleLabels();
    assert expected[0] in expected && expected[1] in expected;
    assert expected[2] in expected && expected[3] in expected;
  }

  lemma ExampleLabels()
    ensures GroupLabel(ExampleRows()[0]) == "Aisle 10"
    ensures GroupLabel(ExampleRows()[1]) == "Aisle 2"
    ensures GroupLabel(ExampleRows()[2]) == "Drinks"
    ensures GroupLabel(ExampleRows()[3]) == Unknown
    ensures AisleNumber("Aisle 10") == Some(10) && AisleNumber("Aisle 2") == Some(2)
    ensures AisleNumber("Drinks").None?
  {
    AisleLabelRoundTrip(10);
    AisleLabelRoundTrip(2);
    assert AisleLabel(10) == "Aisle 10" && AisleLabel(2) == "Aisle 2";
    assert "Drinks"[..|AislePrefix|] == "Drinks";
  }

  /** Each row on its own: the members of a label are the rows carrying it. */
  lemma ExampleMembers(tag: string)
    ensures var rows := ExampleRows();
      Members(rows, tag) ==
        (if GroupLabel(rows[0]) == tag then [rows[0]] else []) + (if GroupLabel(rows[1]) == tag then [rows[1]] else []) +
        (if GroupLabel(rows[2]) == tag then [rows[2]] else []) + (if GroupLabel(rows[3]) == tag then [rows[3]] else [])
  {
    var rows := ExampleRows();
    var p1, p2, p3 := [rows[0]], [rows[0], rows[1]], [rows[0], rows[1], rows[2]];
    assert rows[..3] == p3 && p3[..2] == p2 && p2[..1] == p1 && p1[..0] == [];
    assert Members(p1, tag) == (if GroupLabel(rows[0]) == tag then [rows[0]] else []);
    assert Members(p2, tag) == Members(p1, tag) + (if GroupLabel(rows[1]) == tag then [rows[1]] else []);
    assert Members(p3, tag) == Members(p2, tag) + (if GroupLabel(rows[2]) == tag then [rows[2]] else []);
    assert Members(rows, tag) == Members(p3, tag) + (if GroupLabel(rows[3]) == tag then [rows[3]] else []);
  }

  lemma ExampleOrder()
    ensures InDisplayOrder(ExampleGroups())
  {
    ExampleLabels();
  }
}
