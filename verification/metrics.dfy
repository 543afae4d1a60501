/** `fetch_data_by_company` of the aggregation job binds the rows of the count
    query positionally to named counters (src/fetch_account_data.py: eight,
    run/src/fetch_account_data.py: four), and the SMS shows the resulting
    dictionary through `str(dict)` with braces and quotes removed. */
module Metrics {
  import opened Wrappers
  import Text
  import opened Variants

  /** One `key: count` pair of the per-company data dictionary. */
  datatype Entry = Entry(key: string, count: int)

  /** `{'company': code, 'data': data}`, the result of fetching one branch office. */
  datatype CompanyData = CompanyData(company: string, data: seq<Entry>)

  /** The counter names in the order the dictionary display declares them. */
  const SrcLabels: seq<string> := [
    "本周期户表出账(支)", "本周期户表应出账(支)", "本周期大路表出账(支)", "本周期大路表应出账(支)",
    "上周期户表出账(支)", "去年周期户表出账(支)", "上周期大路表出账(支)", "去年周期大路表出账(支)"
  ]
  const RunLabels: seq<string> := [
    "本周期户表已出账(支)", "本周期户表应出账(支)", "本周期大路表已出账(支)", "本周期大路表应出账(支)"
  ]

  /** Position `i` is read when `len(users) > guard[i]`, as the code writes it. */
  const SrcGuards: seq<nat> := [0, 1, 0, 1, 0, 1, 1, 1]
  const RunGuards: seq<nat> := [0, 1, 0, 1]

  /** The value of a counter the query did not deliver. */
  const Missing: int := -1

  function Labels(variant: Variant): (labels: seq<string>)
    ensures |labels| == if variant == Src then 8 else 4
  {
    match variant
    case Src => SrcLabels
    case Run => RunLabels
  }

  function Guards(variant: Variant): (guards: seq<nat>)
    ensures |guards| == |Labels(variant)|
  {
    match variant
    case Src => SrcGuards
    case Run => RunGuards
  }

  /** The guard the evidently intended binding uses: position `i` is read exactly
      when the result has more than `i` rows. */
  function IntendedGuards(n: nat): (guards: seq<nat>)
    ensures |guards| == n && forall i :: 0 <= i < n ==> guards[i] == i
  {
    seq(n, i => i)
  }

  datatype BindError = IndexError(position: nat)

  /** Position `i` raises when its guard lets the read through but the row is absent. */
  predicate Raises(counts: seq<int>, guards: seq<nat>, i: int)
    requires 0 <= i < |guards|
  {
    |counts| > guards[i] && i >= |counts|
  }

  /** `{label_i: users[i]['count'] if len(users) > guard_i else -1, ...}`: the
      dictionary display is evaluated in order and the first out-of-range read
      raises `IndexError`. */
  function BindWith(labels: seq<string>, guards: seq<nat>, counts: seq<int>): (r: Result<seq<Entry>, BindError>)
    requires |labels| == |guards|
    ensures r.Success? <==> forall i :: 0 <= i < |guards| ==> !Raises(counts, guards, i)
    ensures r.Failure? ==> var p := r.error.position;
              p < |guards| && Raises(counts, guards, p) && forall j :: 0 <= j < p ==> !Raises(counts, guards, j)
    ensures r.Success? ==> |r.value| == |labels| && forall i :: 0 <= i < |labels| ==>
              r.value[i] == Entry(labels[i], if |counts| > guards[i] && i < |counts| then counts[i] else Missing)
    decreases |labels|
  {
    if |labels| == 0 then Success([])
    else
      var n := |labels| - 1;
      var init := BindWith(labels[..n], guards[..n], counts);
      assert forall i :: 0 <= i < n ==> guards[..n][i] == guards[i];
      assert forall i :: 0 <= i < n ==> Raises(counts, guards[..n], i) == Raises(counts, guards, i);
      match init
      case Failure(e) => Failure(e)
      case Success(entries) =>
        if |counts| > guards[n] then
          if n < |counts| then Success(entries + [Entry(labels[n], counts[n])])
          else
            assert Raises(counts, guards, n);
            Failure(IndexError(n))
        else Success(entries + [Entry(labels[n], Missing)])
  }

  /** The binding as the code writes it: it yields the declared counters in order,
      and it can raise only when the result has some rows but fewer than there
      are counters. */
  function BindAsWritten(variant: Variant, counts: seq<int>): (r: Result<seq<Entry>, BindError>)
    ensures r.Success? ==> |r.value| == |Labels(variant)|
    ensures r.Success? ==> forall i :: 0 <= i < |Labels(variant)| ==> r.value[i].key == Labels(variant)[i]
    ensures r.Failure? ==> 1 <= |counts| < |Labels(variant)|
  {
    BindWith(Labels(variant), Guards(variant), counts)
  }

  /** The evidently intended binding: every counter present in the result is
      read, every other counter is `-1`, and nothing raises. */
  function BindIntended(variant: Variant, counts: seq<int>): (r: Result<seq<Entry>, BindError>)
    ensures r.Success?
    ensures |r.value| == |Labels(variant)|
    ensures forall i :: 0 <= i < |Labels(variant)| ==>
              r.value[i] == Entry(Labels(variant)[i], if i < |counts| then counts[i] else Missing)
  {
    BindWith(Labels(variant), IntendedGuards(|Labels(variant)|), counts)
  }

  /** The binding of an edition: as the code writes it, or corrected. Only the
      binding as written fails, and only on a partial result. */
  function Bind(edition: Edition, variant: Variant, counts: seq<int>): (r: Result<seq<Entry>, BindError>)
    ensures r.Success? ==> |r.value| == |Labels(variant)|
    ensures r.Success? ==> forall i :: 0 <= i < |Labels(variant)| ==> r.value[i].key == Labels(variant)[i]
    ensures r.Failure? ==> edition == AsWritten && 1 <= |counts| < |Labels(variant)|
  {
    match edition
    case AsWritten => BindAsWritten(variant, counts)
    case Corrected => BindIntended(variant, counts)
  }

  /** The outcome of the binding as written: no rows give all `-1`, enough rows
      bind positionally, and any row count in between raises at position 2 or at
      the first absent row, whichever comes later. */
  lemma BindAsWrittenOutcome(variant: Variant, counts: seq<int>)
    ensures var r := BindAsWritten(variant, counts);
            && (|counts| == 0 ==> r.Success? && forall i :: 0 <= i < |r.value| ==> r.value[i].count == Missing)
            && (|counts| >= |Labels(variant)| ==> r.Success? && forall i :: 0 <= i < |r.value| ==> r.value[i].count == counts[i])
            && (1 <= |counts| < |Labels(variant)| ==> r == Failure(IndexError(if |counts| < 2 then 2 else |counts|)))
  {
    var guards := Guards(variant);
    var n := |counts|;
    assert forall i :: 0 <= i < |guards| ==> guards[i] <= 1 || (i == 1 && guards[i] == 1);
    assert forall i :: 0 <= i < |guards| ==> guards[i] <= i;
    if 1 <= n < |guards| {
      var p := if n < 2 then 2 else n;
      assert guards[0] == 0 && guards[1] == 1 && guards[2] == 0;
      assert Raises(counts, guards, p);
      assert forall j :: 0 <= j < p ==> !Raises(counts, guards, j);
    }
  }

  /** Wherever the binding as written does not raise, it agrees with the intended one. */
  lemma BindAgreesWhereDefined(variant: Variant, counts: seq<int>)
    requires BindAsWritten(variant, counts).Success?
    ensures BindAsWritten(variant, counts) == BindIntended(variant, counts)
  {
    var guards := Guards(variant);
    assert forall i :: 0 <= i < |guards| ==> guards[i] <= i;
    var a := BindAsWritten(variant, counts).value;
    var b := BindIntended(variant, counts).value;
    forall i | 0 <= i < |a| ensures a[i] == b[i] {
      assert !Raises(counts, guards, i);
      assert guards[i] <= i;
    }
    assert a == b;
  }

  /** The counter names of each copy are pairwise distinct, so the list of entries
      is the dictionary itself. */
  lemma LabelsDistinct(variant: Variant)
    ensures forall i, j :: 0 <= i < j < |Labels(variant)| ==> Labels(variant)[i] != Labels(variant)[j]
  {
  }

  /** The value stored under a key: the first entry with that key. */
  function Lookup(entries: seq<Entry>, key: string): (r: Option<int>)
    ensures r.None? <==> forall i :: 0 <= i < |entries| ==> entries[i].key != key
    ensures r.Some? ==> exists i :: 0 <= i < |entries| && entries[i] == Entry(key, r.value) &&
                                    forall j :: 0 <= j < i ==> entries[j].key != key
    decreases |entries|
  {
    if |entries| == 0 then None
    else if entries[0].key == key then Some(entries[0].count)
    else
      var r := Lookup(entries[1..], key);
      assert forall i :: 1 <= i < |entries| ==> entries[1..][i - 1] == entries[i];
      r
  }

  /** One item as `str(dict)` prints it (`'key': count`), or with the quotes removed. */
  function Item(e: Entry, quoted: bool): string {
    (if quoted then "'" + e.key + "'" else e.key) + ": " + Text.IntToString(e.count)
  }

  /** The items joined by `", "`. */
  function Items(entries: seq<Entry>, quoted: bool): string
    decreases |entries|
  {
    if |entries| == 0 then ""
    else if |entries| == 1 then Item(entries[0], quoted)
    else Items(entries[..|entries| - 1], quoted) + ", " + Item(entries[|entries| - 1], quoted)
  }

  /** `str(data)` for a dictionary of string keys and integer counts. */
  function Repr(entries: seq<Entry>): string {
    "{" + Items(entries, true) + "}"
  }

  /** The `key: count, ...` text the SMS shows. */
  function Plain(entries: seq<Entry>): string {
    Items(entries, false)
  }

  /** The characters the SMS line strips from `str(data)`. */
  const Stripped: set<char> := {'{', '}', '\''}

  /** `.replace('{', '').replace('}', '').replace('\'', '')`: three deletions in a
      row remove exactly the three characters at once. */
  function StripReprChars(s: string): (r: string)
    ensures r == Text.Delete(s, Stripped)
  {
    var once := Text.Delete(s, {'{'});
    var twice := Text.Delete(once, {'}'});
    Text.DeleteTwice(s, {'{'}, {'}'});
    Text.DeleteTwice(s, {'{'} + {'}'}, {'\''});
    assert {'{'} + {'}'} + {'\''} == Stripped;
    Text.Delete(twice, {'\''})
  }

  predicate PlainKey(key: string) {
    forall i :: 0 <= i < |key| ==> key[i] !in Stripped
  }

  /** One quoted item loses exactly its two quotes. */
  lemma StripItem(e: Entry)
    requires PlainKey(e.key)
    ensures Text.Delete(Item(e, true), Stripped) == Item(e, false)
  {
    var count := ": " + Text.IntToString(e.count);
    var quoted := "'" + e.key + "'";
    StripQuotes(e.key);
    StripCount(e.count);
    Text.DeleteAppend(quoted, count, Stripped);
    assert Item(e, true) == quoted + count;
    assert Item(e, false) == e.key + count;
  }

  lemma StripQuotes(key: string)
    requires PlainKey(key)
    ensures Text.Delete("'" + key + "'", Stripped) == key
  {
    Text.DeleteNoOp(key, Stripped);
    Text.DeleteAll("'", Stripped);
    Text.DeleteAppend("'", key, Stripped);
    Text.DeleteAppend("'" + key, "'", Stripped);
  }

  lemma StripCount(count: int)
    ensures Text.Delete(": " + Text.IntToString(count), Stripped) == ": " + Text.IntToString(count)
  {
    var text := ": " + Text.IntToString(count);
    Text.IntToStringShape(count);
    assert forall i :: 2 <= i < |text| ==> text[i] == Text.IntToString(count)[i - 2];
    Text.DeleteNoOp(text, Stripped);
  }

  lemma {:induction false} StripItems(entries: seq<Entry>)
    requires forall i :: 0 <= i < |entries| ==> PlainKey(entries[i].key)
    ensures Text.Delete(Items(entries, true), Stripped) == Items(entries, false)
    decreases |entries|
  {
    if |entries| > 0 {
      var last := entries[|entries| - 1];
      StripItem(last);
      if |entries| > 1 {
        var init := entries[..|entries| - 1];
        assert forall i :: 0 <= i < |init| ==> init[i] == entries[i];
        StripItems(init);
        var front := Items(init, true);
        Text.DeleteNoOp(", ", Stripped);
        Text.DeleteAppend(front, ", ", Stripped);
        Text.DeleteAppend(front + ", ", Item(last, true), Stripped);
      }
    }
  }

  /** Removing braces and quotes from `str(data)` leaves exactly the plain items,
      provided no key carries one of those characters. */
  lemma StripRepr(entries: seq<Entry>)
    requires forall i :: 0 <= i < |entries| ==> PlainKey(entries[i].key)
    ensures StripReprChars(Repr(entries)) == Plain(entries)
  {
    StripItems(entries);
    Text.DeleteAll("{", Stripped);
    Text.DeleteAll("}", Stripped);
    Text.DeleteAppend("{", Items(entries, true), Stripped);
    Text.DeleteAppend("{" + Items(entries, true), "}", Stripped);
  }

  /** The counter names carry no brace or quote. */
  lemma LabelsArePlain(variant: Variant)
    ensures forall i :: 0 <= i < |Labels(variant)| ==> PlainKey(Labels(variant)[i])
  {
  }
}
