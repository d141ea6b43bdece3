/**
  The pure part of `processTimeData`: split the input into lines, drop blank
  lines, parse each line and drop the lines without a duration tag, classify
  each entry, group the entries by category name in order of first
  appearance and emit one chart record per group with its share of the total
  time and its hours.

  Grouping, summing and the percentages are defined directly over sequences;
  the numbers are exact reals, and the one-decimal rounding of the chart is
  the separate function `RoundTenth`.
 */
module Distribution {
  import opened Wrappers
  import opened Text
  import opened Duration
  import opened Categories

  // Lines and entries.

  /** `lines.filter(line => line.trim())`: the lines whose trimmed text is not empty. */
  function NonBlank(lines: seq<string>): (r: seq<string>)
    ensures |r| <= |lines|
  {
    if lines == [] then []
    else (if Trim(lines[0]) != [] then [lines[0]] else []) + NonBlank(lines[1..])
  }

  /** The kept lines are exactly the non-blank ones. */
  lemma {:induction false} NonBlankSpec(lines: seq<string>)
    ensures forall l :: l in NonBlank(lines) <==> l in lines && Trim(l) != []
  {
    if lines != [] {
      NonBlankSpec(lines[1..]);
      assert lines == [lines[0]] + lines[1..];
    }
  }

  /** `lines.map(f).filter(x => x !== null)`, for any `f`. */
  function MapPresent<T>(f: string -> Option<T>, lines: seq<string>): (r: seq<T>)
    ensures |r| <= |lines|
  {
    if lines == [] then []
    else (match f(lines[0]) case Some(x) => [x] case None => []) + MapPresent(f, lines[1..])
  }

  /** Mapping and filtering a concatenation maps and filters each part. */
  lemma {:induction false} MapPresentAppend<T>(f: string -> Option<T>, a: seq<string>, b: seq<string>)
    ensures MapPresent(f, a + b) == MapPresent(f, a) + MapPresent(f, b)
  {
    if a == [] {
      assert a + b == b;
    } else {
      assert (a + b)[0] == a[0];
      assert (a + b)[1..] == a[1..] + b;
      MapPresentAppend(f, a[1..], b);
    }
  }

  /** `lines.map(parseTimeEntry).filter(entry => entry !== null)`. */
  function ParseAll(lines: seq<string>): (r: seq<TimeEntry>)
    ensures |r| <= |lines|
  {
    MapPresent(ParseTimeEntry, lines)
  }

  /** Every entry comes from a line, and a line that yields an entry contributes it. */
  lemma {:induction false} ParseAllSpec(lines: seq<string>)
    ensures forall e :: e in ParseAll(lines) <==> exists l :: l in lines && ParseTimeEntry(l) == Some(e)
  {
    if lines != [] {
      ParseAllSpec(lines[1..]);
      assert lines == [lines[0]] + lines[1..];
    }
  }

  /** No entries remain exactly when no line yields one. */
  lemma ParseAllEmptyIff(lines: seq<string>)
    ensures ParseAll(lines) == [] <==> forall l :: l in lines ==> ParseTimeEntry(l).None?
  {
    ParseAllSpec(lines);
    if ParseAll(lines) != [] {
      assert ParseAll(lines)[0] in ParseAll(lines);
    }
  }

  /** A blank line has no `[`, so it never yields an entry: dropping blank lines first
      changes nothing about which entries are found. */
  lemma BlankNeverParses(line: string)
    requires Trim(line) == []
    ensures ParseTimeEntry(line).None?
  {
    TrimEmptyIff(line);
    NoBracketNoEntry(line);
  }

  /** The filter keeps order and multiplicity: filtering a concatenation filters each part. */
  lemma {:induction false} NonBlankAppend(a: seq<string>, b: seq<string>)
    ensures NonBlank(a + b) == NonBlank(a) + NonBlank(b)
  {
    if a == [] {
      assert a + b == b;
    } else {
      assert (a + b)[0] == a[0];
      assert (a + b)[1..] == a[1..] + b;
      NonBlankAppend(a[1..], b);
    }
  }

  /** A single line is kept exactly when it is not blank. */
  lemma NonBlankOne(line: string)
    ensures NonBlank([line]) == (if Trim(line) != [] then [line] else [])
  {
  }

  /** Parsing keeps order and multiplicity: one entry per tagged line, in line order. */
  lemma ParseAllAppend(a: seq<string>, b: seq<string>)
    ensures ParseAll(a + b) == ParseAll(a) + ParseAll(b)
  {
    MapPresentAppend(ParseTimeEntry, a, b);
  }

  /** A single line contributes its entry, or nothing when it yields `null`. */
  lemma ParseAllOne(line: string)
    ensures ParseAll([line]) == (match ParseTimeEntry(line) case Some(e) => [e] case None => [])
  {
  }

  /** Dropping the blank lines first loses no entry and adds none. */
  lemma {:induction false} ParseAllSkipsBlank(lines: seq<string>)
    ensures ParseAll(NonBlank(lines)) == ParseAll(lines)
  {
    if lines != [] {
      ParseAllSkipsBlank(lines[1..]);
      var rest := NonBlank(lines[1..]);
      if Trim(lines[0]) != [] {
        assert NonBlank(lines) == [lines[0]] + rest;
        ParseAllAppend([lines[0]], rest);
      } else {
        BlankNeverParses(lines[0]);
        assert NonBlank(lines) == rest;
      }
    }
  }

  /** The entries of the input text, in line order. */
  function Entries(input: string): seq<TimeEntry> {
    ParseAll(NonBlank(Split(input, '\n')))
  }

  /** The entries are the entries of all the lines of the input, one per tagged line, in order. */
  lemma EntriesOfLines(input: string)
    ensures Entries(input) == ParseAll(Split(input, '\n'))
  {
    ParseAllSkipsBlank(Split(input, '\n'));
  }

  /** Every entry of the input has a time that is not negative. */
  lemma EntriesNonNegative(input: string)
    ensures forall e :: e in Entries(input) ==> e.time >= 0.0
  {
    var lines := NonBlank(Split(input, '\n'));
    ParseAllSpec(lines);
    forall e | e in Entries(input) ensures e.time >= 0.0 {
      var l :| l in lines && ParseTimeEntry(l) == Some(e);
      UnitConversion(l);
    }
  }

  // Classified entries and their grouping.

  /** A categorized entry: `{...entry, category: categorizeEntry(entry.text)}`. */
  datatype Item = Item(entry: TimeEntry, category: string)

  /** `entries.map(entry => ({...entry, category: categorizeEntry(entry.text)}))`. */
  function Classify(entries: seq<TimeEntry>): (r: seq<Item>)
    ensures |r| == |entries|
    ensures forall i :: 0 <= i < |r| ==> r[i].entry == entries[i]
  {
    seq(|entries|, i requires 0 <= i < |entries| => Item(entries[i], CategorizeEntry(entries[i].text)))
  }

  /** Category `c` occurs among the first `n` items. */
  predicate Occurs(items: seq<Item>, c: string, n: nat) {
    exists i :: 0 <= i < n && i < |items| && items[i].category == c
  }

  /** No value appears twice. */
  predicate Distinct(keys: seq<string>) {
    forall p, q :: 0 <= p < q < |keys| ==> keys[p] != keys[q]
  }

  /** The keys of `_.groupBy(items, 'category')` in the order `Object.entries` lists them:
      each category once, when it is first met. */
  function Keys(items: seq<Item>): seq<string>
    decreases |items|
  {
    if items == [] then []
    else
      var ks := Keys(items[..|items| - 1]);
      var c := items[|items| - 1].category;
      if c in ks then ks else ks + [c]
  }

  /** The items before the last one agree with the items of the prefix. */
  lemma PrefixItems(items: seq<Item>)
    requires items != []
    ensures forall i :: 0 <= i < |items| - 1 ==> items[..|items| - 1][i] == items[i]
  {
  }

  /** The keys are exactly the categories of the items. */
  lemma {:induction false} KeysCover(items: seq<Item>)
    ensures forall c :: c in Keys(items) <==> Occurs(items, c, |items|)
    decreases |items|
  {
    if items != [] {
      var pre := items[..|items| - 1];
      KeysCover(pre);
      PrefixItems(items);
      assert forall d :: Occurs(items, d, |items|) <==>
        Occurs(pre, d, |pre|) || d == items[|items| - 1].category;
    }
  }

  /** No key is listed twice. */
  lemma {:induction false} KeysDistinct(items: seq<Item>)
    ensures Distinct(Keys(items))
    decreases |items|
  {
    if items != [] {
      KeysDistinct(items[..|items| - 1]);
    }
  }

  /** The keys are ordered by first appearance: an item whose category is a later key comes
      after some item with an earlier key. */
  lemma {:induction false} KeysOrdered(items: seq<Item>)
    ensures forall p, q, j ::
      (0 <= p < q < |Keys(items)| && 0 <= j < |items| && items[j].category == Keys(items)[q])
      ==> Occurs(items, Keys(items)[p], j)
    decreases |items|
  {
    if items != [] {
      var pre := items[..|items| - 1];
      var K := Keys(pre);
      KeysOrdered(pre);
      KeysCover(pre);
      PrefixItems(items);
      forall p, q, j | 0 <= p < q < |Keys(items)| && 0 <= j < |items| && items[j].category == Keys(items)[q]
        ensures Occurs(items, Keys(items)[p], j)
      {
        assert Keys(items)[p] == K[p] && K[p] in K;
        if q < |K| {
          assert Keys(items)[q] == K[q] && K[q] in K;
          if j < |pre| {
            assert pre[j] == items[j];
          } else {
            var i :| 0 <= i < |pre| && pre[i].category == K[q];
            assert pre[i] == items[i];
          }
          assert Occurs(items, K[p], j);
        }
      }
    }
  }

  /** `groupedData[c]`: the items of category `c`, in their original order. */
  function Group(items: seq<Item>, c: string): (r: seq<Item>)
    ensures |r| <= |items|
    decreases |items|
  {
    if items == [] then []
    else
      var x := items[|items| - 1];
      Group(items[..|items| - 1], c) + (if x.category == c then [x] else [])
  }

  /** `_.sumBy(items, 'time')`. */
  function Minutes(items: seq<Item>): real
    decreases |items|
  {
    if items == [] then 0.0 else Minutes(items[..|items| - 1]) + items[|items| - 1].entry.time
  }

  /** The groups of the keys `keys`, one after the other. */
  function Concat(items: seq<Item>, keys: seq<string>): seq<Item> {
    if keys == [] then [] else Group(items, keys[0]) + Concat(items, keys[1..])
  }

  /** The minutes of the groups of `keys`, added up. */
  function GroupMinutes(items: seq<Item>, keys: seq<string>): real {
    if keys == [] then 0.0 else Minutes(Group(items, keys[0])) + GroupMinutes(items, keys[1..])
  }

  /** A category that no item has has an empty group. */
  lemma {:induction false} GroupOfAbsent(items: seq<Item>, c: string)
    requires !Occurs(items, c, |items|)
    ensures Group(items, c) == []
    decreases |items|
  {
    if items != [] {
      var pre := items[..|items| - 1];
      PrefixItems(items);
      assert !Occurs(pre, c, |pre|);
      GroupOfAbsent(pre, c);
    }
  }

  /** One more item joins the group of its own category only. */
  lemma GroupSnoc(items: seq<Item>, x: Item, c: string)
    ensures Group(items + [x], c) == Group(items, c) + (if x.category == c then [x] else [])
  {
    assert (items + [x])[..|items|] == items;
  }

  /** One more item adds its time. */
  lemma MinutesSnoc(items: seq<Item>, x: Item)
    ensures Minutes(items + [x]) == Minutes(items) + x.entry.time
  {
    assert (items + [x])[..|items|] == items;
  }

  /** The keys after the first are distinct too, and do not repeat the first. */
  lemma DistinctTail(keys: seq<string>)
    requires keys != [] && Distinct(keys)
    ensures Distinct(keys[1..]) && keys[0] !in keys[1..]
    ensures forall c :: c in keys <==> c == keys[0] || c in keys[1..]
  {
    assert keys == [keys[0]] + keys[1..];
  }

  /** A category that is not a key has an empty group. */
  lemma AbsentKey(items: seq<Item>, c: string)
    requires c !in Keys(items)
    ensures Group(items, c) == []
  {
    KeysCover(items);
    GroupOfAbsent(items, c);
  }

  /** One more item adds itself to the groups exactly when its category is one of the keys. */
  lemma {:induction false} ConcatSnoc(items: seq<Item>, x: Item, keys: seq<string>)
    requires Distinct(keys)
    ensures multiset(Concat(items + [x], keys))
      == multiset(Concat(items, keys)) + (if x.category in keys then multiset{x} else multiset{})
  {
    if keys != [] {
      var ys := items + [x];
      var e: seq<Item> := if x.category == keys[0] then [x] else [];
      DistinctTail(keys);
      ConcatSnoc(items, x, keys[1..]);
      GroupSnoc(items, x, keys[0]);
      ConcatCons(ys, keys);
      ConcatCons(items, keys);
      assert multiset(Group(ys, keys[0])) == multiset(Group(items, keys[0])) + multiset(e);
      assert (x.category in keys) == (x.category == keys[0] || x.category in keys[1..]);
      MultisetStep(multiset(Group(items, keys[0])), multiset(e),
        multiset(Concat(items, keys[1..])), multiset(Concat(ys, keys[1..])),
        if x.category in keys[1..] then multiset{x} else multiset{},
        if x.category in keys then multiset{x} else multiset{});
    }
  }

  lemma ConcatCons(items: seq<Item>, keys: seq<string>)
    requires keys != []
    ensures multiset(Concat(items, keys))
      == multiset(Group(items, keys[0])) + multiset(Concat(items, keys[1..]))
  {
  }

  lemma MultisetStep(g: multiset<Item>, e: multiset<Item>, r: multiset<Item>, r': multiset<Item>,
                     m1: multiset<Item>, m: multiset<Item>)
    requires r' == r + m1 && e + m1 == m
    ensures g + e + r' == (g + r) + m
  {
  }

  /** One more item adds its time to the groups exactly when its category is one of the keys. */
  lemma {:induction false} GroupMinutesSnoc(items: seq<Item>, x: Item, keys: seq<string>)
    requires Distinct(keys)
    ensures GroupMinutes(items + [x], keys)
      == GroupMinutes(items, keys) + (if x.category in keys then x.entry.time else 0.0)
  {
    if keys != [] {
      var ys := items + [x];
      GroupSnoc(items, x, keys[0]);
      DistinctTail(keys);
      GroupMinutesSnoc(items, x, keys[1..]);
      var g := Group(items, keys[0]);
      if x.category == keys[0] {
        assert Group(ys, keys[0]) == g + [x];
        MinutesSnoc(g, x);
      } else {
        assert Group(ys, keys[0]) == g + [];
        assert g + [] == g;
      }
      assert GroupMinutes(ys, keys) == Minutes(Group(ys, keys[0])) + GroupMinutes(ys, keys[1..]);
      assert GroupMinutes(items, keys) == Minutes(g) + GroupMinutes(items, keys[1..]);
    }
  }

  /** Groups of keys `keys + [c]`: the groups of `keys`, then the group of `c`. */
  lemma {:induction false} ConcatAppend(items: seq<Item>, keys: seq<string>, c: string)
    ensures Concat(items, keys + [c]) == Concat(items, keys) + Group(items, c)
    ensures GroupMinutes(items, keys + [c]) == GroupMinutes(items, keys) + Minutes(Group(items, c))
  {
    if keys == [] {
      assert Concat(items, [c]) == Group(items, c) + Concat(items, []);
    } else {
      assert (keys + [c])[1..] == keys[1..] + [c];
      ConcatAppend(items, keys[1..], c);
    }
  }

  /** The groups partition the items: together they hold every item exactly as often as
      `items` does, so none is lost and none is duplicated. */
  lemma {:induction false} GroupsPartition(items: seq<Item>)
    ensures multiset(Concat(items, Keys(items))) == multiset(items)
    decreases |items|
  {
    if items != [] {
      var pre := items[..|items| - 1];
      var x := items[|items| - 1];
      var c := x.category;
      assert items == pre + [x];
      GroupsPartition(pre);
      KeysDistinct(pre);
      var K := Keys(pre);
      ConcatSnoc(pre, x, K);
      if c in K {
        assert Keys(items) == K;
      } else {
        assert Keys(items) == K + [c];
        ConcatAppend(items, K, c);
        AbsentKey(pre, c);
        GroupSnoc(pre, x, c);
        assert Group(items, c) == [x];
        assert multiset(Concat(items, K) + [x]) == multiset(Concat(items, K)) + multiset{x};
      }
    }
  }

  /** The minutes of the groups add up to the total. */
  lemma {:induction false} GroupsSum(items: seq<Item>)
    ensures GroupMinutes(items, Keys(items)) == Minutes(items)
    decreases |items|
  {
    if items != [] {
      var pre := items[..|items| - 1];
      var x := items[|items| - 1];
      var c := x.category;
      assert items == pre + [x];
      GroupsSum(pre);
      KeysDistinct(pre);
      var K := Keys(pre);
      GroupMinutesSnoc(pre, x, K);
      assert Minutes(items) == Minutes(pre) + x.entry.time;
      if c in K {
        assert Keys(items) == K;
      } else {
        assert Keys(items) == K + [c];
        ConcatAppend(items, K, c);
        AbsentKey(pre, c);
        GroupSnoc(pre, x, c);
        assert Group(items, c) == [x];
        MinutesSnoc([], x);
        assert [] + [x] == [x];
      }
    }
  }

  /** Every item of a group has the group's category. */
  lemma {:induction false} GroupHasCategory(items: seq<Item>, c: string)
    ensures forall y :: y in Group(items, c) ==> y.category == c
    decreases |items|
  {
    if items != [] {
      GroupHasCategory(items[..|items| - 1], c);
    }
  }

  /** A group's minutes are at least 0 and at most the total, when no time is negative. */
  lemma {:induction false} GroupWithinTotal(items: seq<Item>, c: string)
    requires forall i :: 0 <= i < |items| ==> items[i].entry.time >= 0.0
    ensures 0.0 <= Minutes(Group(items, c)) <= Minutes(items)
    decreases |items|
  {
    if items != [] {
      var pre := items[..|items| - 1];
      var x := items[|items| - 1];
      PrefixItems(items);
      GroupWithinTotal(pre, c);
      assert Minutes(items) == Minutes(pre) + x.entry.time;
      assert x.entry.time >= 0.0;
      if x.category == c {
        assert Group(items, c) == Group(pre, c) + [x];
        MinutesSnoc(Group(pre, c), x);
      } else {
        assert Group(items, c) == Group(pre, c) + [];
        assert Group(pre, c) + [] == Group(pre, c);
      }
    }
  }

  // Chart records.

  /** A percentage, or `NaN` where the code divides zero minutes by a zero total. */
  datatype Share = Percent(p: real) | NaN

  /** `(totalTime / totalMinutes) * 100` before rounding. With no negative time a group's
      minutes are 0 whenever the total is, so the only division by zero is `0 / 0`. */
  function ExactShare(minutes: real, total: real): Share {
    if total == 0.0 then NaN else Percent(minutes / total * 100.0)
  }

  /** `parseFloat(x.toFixed(1))` on the exact value: the nearest multiple of 0.1, halves upward. */
  function RoundTenth(x: real): real {
    ((x * 10.0 + 0.5).Floor as real) / 10.0
  }

  /** Rounding is within half a tenth of the exact value, and yields whole tenths. */
  lemma RoundTenthClose(x: real)
    ensures x - 0.05 < RoundTenth(x) <= x + 0.05
    ensures RoundTenth(x) * 10.0 == (RoundTenth(x) * 10.0).Floor as real
  {
    var n := (x * 10.0 + 0.5).Floor;
    assert n as real <= x * 10.0 + 0.5 < n as real + 1.0;
    assert RoundTenth(x) * 10.0 == n as real;
  }

  function RoundShare(s: Share): Share {
    match s
    case Percent(p) => Percent(RoundTenth(p))
    case NaN => NaN
  }

  /** One element of `chartData`: `{name, value, hours}`. */
  datatype Record = Record(name: string, value: Share, hours: real)

  /** The record of group `c`. */
  function RecordOf(items: seq<Item>, c: string, total: real): Record {
    var minutes := Minutes(Group(items, c));
    Record(c, RoundShare(ExactShare(minutes, total)), RoundTenth(minutes / 60.0))
  }

  /** `Object.entries(groupedData).map(...)`. */
  function Records(items: seq<Item>, keys: seq<string>, total: real): (r: seq<Record>)
    ensures |r| == |keys|
    ensures forall p :: 0 <= p < |r| ==> r[p] == RecordOf(items, keys[p], total)
  {
    seq(|keys|, p requires 0 <= p < |keys| => RecordOf(items, keys[p], total))
  }

  /** The outcome of pressing the button: the chart data, or the error message shown. */
  datatype Outcome = Chart(records: seq<Record>) | Failed(message: string)

  const NoEntriesMessage: string :=
    "No valid time entries found. Make sure each task includes time in [X mins] or [X hours] format."

  /** The classified entries of the input. */
  function Items(input: string): seq<Item> {
    Classify(Entries(input))
  }

  /** `processTimeData` on the text of the input box. The total is `_.sumBy(entries, 'time')`,
      which is the total of the classified items, since classifying keeps every entry. */
  function ProcessTimeData(input: string): Outcome {
    var entries := Entries(input);
    if |entries| == 0 then Failed(NoEntriesMessage)
    else
      var items := Classify(entries);
      Chart(Records(items, Keys(items), Minutes(items)))
  }

  // Properties of the pipeline.

  /** The error is reported exactly when no line of the input yields an entry; blank lines
      play no part. */
  lemma FailsIff(input: string)
    ensures ProcessTimeData(input).Failed? <==>
      forall l :: l in Split(input, '\n') ==> ParseTimeEntry(l).None?
    ensures ProcessTimeData(input).Failed? ==> ProcessTimeData(input).message == NoEntriesMessage
  {
    var lines := Split(input, '\n');
    NonBlankSpec(lines);
    ParseAllEmptyIff(NonBlank(lines));
    forall l | l in lines && Trim(l) == [] ensures ParseTimeEntry(l).None? {
      BlankNeverParses(l);
    }
  }

  /** Empty input and input made only of whitespace report the error. */
  lemma BlankInputFails(input: string)
    requires AllSpace(input)
    ensures ProcessTimeData(input) == Failed(NoEntriesMessage)
  {
    var lines := Split(input, '\n');
    forall l | l in lines ensures ParseTimeEntry(l).None? {
      var k :| 0 <= k < |lines| && lines[k] == l;
      JoinHasPieces(lines, '\n', k);
      assert '[' !in input;
      NoBracketNoEntry(l);
    }
    FailsIff(input);
  }

  /** One record per distinct category, in order of first appearance, named after it. */
  lemma ChartShape(input: string)
    requires ProcessTimeData(input).Chart?
    ensures var items := Items(input); var r := ProcessTimeData(input).records;
      && |r| == |Keys(items)|
      && (forall p :: 0 <= p < |r| ==> r[p].name == Keys(items)[p])
      && (forall p, q :: 0 <= p < q < |r| ==> r[p].name != r[q].name)
      && (forall c :: (exists p :: 0 <= p < |r| && r[p].name == c) <==> Occurs(items, c, |items|))
      && (forall p, q, j :: 0 <= p < q < |r| && 0 <= j < |items| && items[j].category == r[q].name
           ==> Occurs(items, r[p].name, j))
  {
    var items := Items(input);
    var r := Records(items, Keys(items), Minutes(items));
    RecordNames(items, Keys(items), Minutes(items));
    KeysDistinct(items);
    KeysOrdered(items);
    KeysCover(items);
  }

  /** The records are named after the keys, one by one. */
  lemma RecordNames(items: seq<Item>, keys: seq<string>, total: real)
    ensures var r := Records(items, keys, total);
      && |r| == |keys|
      && (forall p :: 0 <= p < |r| ==> r[p].name == keys[p])
      && (forall c :: (exists p :: 0 <= p < |r| && r[p].name == c) <==> c in keys)
  {
    var r := Records(items, keys, total);
    forall c ensures (exists p :: 0 <= p < |r| && r[p].name == c) <==> c in keys {
      if c in keys {
        var p :| 0 <= p < |keys| && keys[p] == c;
        assert r[p].name == c;
      }
    }
  }

  /** The exact percentages of the groups. */
  function SharesSum(items: seq<Item>, keys: seq<string>, total: real): real
    requires total > 0.0
  {
    if keys == [] then 0.0
    else ExactShare(Minutes(Group(items, keys[0])), total).p + SharesSum(items, keys[1..], total)
  }

  /** Adding up percentages is taking the percentage of the added minutes. */
  lemma {:induction false} SharesSumScales(items: seq<Item>, keys: seq<string>, total: real)
    requires total > 0.0
    ensures SharesSum(items, keys, total) == GroupMinutes(items, keys) / total * 100.0
  {
    if keys != [] {
      SharesSumScales(items, keys[1..], total);
      Scale(Minutes(Group(items, keys[0])), GroupMinutes(items, keys[1..]), total);
    }
  }

  lemma Scale(a: real, b: real, t: real)
    requires t > 0.0
    ensures a / t * 100.0 + b / t * 100.0 == (a + b) / t * 100.0
  {
  }

  /** Before rounding, the percentages of the chart add up to 100, whenever the total is
      not zero. */
  lemma SharesAddUp(items: seq<Item>)
    requires Minutes(items) > 0.0
    ensures SharesSum(items, Keys(items), Minutes(items)) == 100.0
  {
    SharesSumScales(items, Keys(items), Minutes(items));
    GroupsSum(items);
    Whole(GroupMinutes(items, Keys(items)), Minutes(items));
  }

  lemma Whole(g: real, t: real)
    requires t > 0.0 && g == t
    ensures g / t * 100.0 == 100.0
  {
  }

  /** Each record's percentage lies between 0 and 100, within half a tenth of the exact
      share of its group, and its hours within half a tenth of the group's minutes / 60;
      with a zero total every percentage is `NaN`. */
  lemma RecordBounds(items: seq<Item>, c: string)
    requires forall i :: 0 <= i < |items| ==> items[i].entry.time >= 0.0
    ensures var r := RecordOf(items, c, Minutes(items)); var m := Minutes(Group(items, c));
      && (Minutes(items) == 0.0 ==> r.value == NaN)
      && (Minutes(items) > 0.0 ==>
            && r.value.Percent? && 0.0 <= r.value.p <= 100.0
            && m / Minutes(items) * 100.0 - 0.05 < r.value.p <= m / Minutes(items) * 100.0 + 0.05)
      && m / 60.0 - 0.05 < r.hours <= m / 60.0 + 0.05
  {
    var t := Minutes(items);
    var m := Minutes(Group(items, c));
    GroupWithinTotal(items, c);
    RoundTenthClose(m / 60.0);
    if t > 0.0 {
      PercentBounds(m, t);
    }
  }

  /** The rounded share of `m` minutes out of `t` lies in [0, 100], within 0.05 of the exact one. */
  lemma PercentBounds(m: real, t: real)
    requires 0.0 <= m <= t && t > 0.0
    ensures var x := m / t * 100.0;
      0.0 <= RoundTenth(x) <= 100.0 && x - 0.05 < RoundTenth(x) <= x + 0.05
  {
    var x := m / t * 100.0;
    assert 0.0 <= x <= 100.0 by {
      assert m / t <= 1.0;
    }
    RoundTenthClose(x);
    RoundTenthBetween(x);
  }

  /** Rounding keeps a percentage between 0 and 100. */
  lemma RoundTenthBetween(x: real)
    requires 0.0 <= x <= 100.0
    ensures 0.0 <= RoundTenth(x) <= 100.0
  {
    var n := (x * 10.0 + 0.5).Floor;
    assert n as real <= x * 10.0 + 0.5 < n as real + 1.0;
    assert 0 <= n <= 1000;
  }

  /** The items of the input carry no negative time, so `RecordBounds` applies to every chart. */
  lemma ItemsNonNegative(input: string)
    ensures forall i :: 0 <= i < |Items(input)| ==> Items(input)[i].entry.time >= 0.0
  {
    EntriesNonNegative(input);
    var es := Entries(input);
    forall i | 0 <= i < |Items(input)| ensures Items(input)[i].entry.time >= 0.0 {
      assert Items(input)[i].entry == es[i] && es[i] in es;
    }
  }

  /** Every record of a chart: named after its group, with the group's exact share and
      hours rounded to a tenth; `NaN` exactly when all entries take zero minutes. */
  lemma ChartRecord(input: string, p: nat)
    requires ProcessTimeData(input).Chart? && p < |ProcessTimeData(input).records|
    ensures var items := Items(input); var t := Minutes(items);
      var r := ProcessTimeData(input).records[p];
      var m := Minutes(Group(items, r.name));
      && r.name == Keys(items)[p]
      && (t == 0.0 ==> r.value == NaN)
      && (t > 0.0 ==>
            && r.value.Percent? && 0.0 <= r.value.p <= 100.0
            && m / t * 100.0 - 0.05 < r.value.p <= m / t * 100.0 + 0.05)
      && m / 60.0 - 0.05 < r.hours <= m / 60.0 + 0.05
  {
    var items := Items(input);
    ItemsNonNegative(input);
    RecordBounds(items, Keys(items)[p]);
  }

  /** The sum of the percentages shown in a chart. */
  function PercentSum(records: seq<Record>): real {
    if records == [] then 0.0
    else (if records[0].value.Percent? then records[0].value.p else 0.0) + PercentSum(records[1..])
  }

  lemma RecordsTail(items: seq<Item>, keys: seq<string>, total: real)
    requires keys != []
    ensures Records(items, keys, total)[0] == RecordOf(items, keys[0], total)
    ensures Records(items, keys, total)[1..] == Records(items, keys[1..], total)
  {
  }

  /** Rounding each percentage moves the sum by at most half a tenth per record. */
  lemma {:induction false} PercentSumClose(items: seq<Item>, keys: seq<string>, total: real)
    requires total > 0.0
    ensures var n := |keys| as real; var sum := PercentSum(Records(items, keys, total));
      SharesSum(items, keys, total) - 0.05 * n <= sum <= SharesSum(items, keys, total) + 0.05 * n
  {
    if keys != [] {
      RecordsTail(items, keys, total);
      PercentSumClose(items, keys[1..], total);
      RoundTenthClose(ExactShare(Minutes(Group(items, keys[0])), total).p);
    }
  }

  /** The percentages shown add up to 100 up to the rounding of each of them: the sum is
      within half a tenth per record of 100, whenever the total is not zero. */
  lemma PercentagesNear100(input: string)
    requires ProcessTimeData(input).Chart? && Minutes(Items(input)) > 0.0
    ensures var r := ProcessTimeData(input).records; var n := |r| as real;
      100.0 - 0.05 * n <= PercentSum(r) <= 100.0 + 0.05 * n
  {
    var items := Items(input);
    PercentSumClose(items, Keys(items), Minutes(items));
    SharesAddUp(items);
  }

  /** A line without a line break that yields an entry is the whole list of entries. */
  lemma SingleLineEntries(line: string)
    requires '\n' !in line && ParseTimeEntry(line).Some?
    ensures Entries(line) == [ParseTimeEntry(line).value]
  {
    SplitUnique(line, '\n', [line]);
    if Trim(line) == [] {
      BlankNeverParses(line);
    }
    assert NonBlank([line]) == [line];
  }

  /** A single item forms a single group. */
  lemma SingleItemGroup(x: Item)
    ensures Keys([x]) == [x.category]
    ensures Group([x], x.category) == [x]
    ensures Minutes([x]) == x.entry.time
  {
    assert [x][..0] == [];
  }

  /** Input with an entry yields the chart of its classified items. */
  lemma ChartOfItems(input: string)
    requires Entries(input) != []
    ensures ProcessTimeData(input) == Chart(Records(Items(input), Keys(Items(input)), Minutes(Items(input))))
  {
  }

  /** The classified items of a single line that yields an entry. */
  lemma SingleLineItems(line: string)
    requires '\n' !in line && ParseTimeEntry(line).Some?
    ensures var e := ParseTimeEntry(line).value;
      Entries(line) == [e] && Items(line) == [Item(e, CategorizeEntry(e.text))]
  {
    var e := ParseTimeEntry(line).value;
    SingleLineEntries(line);
    assert Classify([e])[0] == Item(e, CategorizeEntry(e.text));
  }

  /** A single line whose duration is zero is not an error: the chart has one record, whose
      percentage is `0 / 0`. */
  lemma ZeroLineCharts(line: string)
    requires '\n' !in line && ParseTimeEntry(line).Some? && ParseTimeEntry(line).value.time == 0.0
    ensures ProcessTimeData(line).Chart?
    ensures var r := ProcessTimeData(line).records;
      && |r| == 1 && r[0].value == NaN && r[0].hours == 0.0
      && r[0].name == CategorizeEntry(ParseTimeEntry(line).value.text)
  {
    var e := ParseTimeEntry(line).value;
    var x := Item(e, CategorizeEntry(e.text));
    SingleLineItems(line);
    SingleItemGroup(x);
    ZeroRecord(x);
    ChartOfItems(line);
    assert Records([x], [x.category], 0.0)[0] == Record(x.category, NaN, 0.0);
  }

  /** The record of a lone item of zero minutes. */
  lemma ZeroRecord(x: Item)
    requires x.entry.time == 0.0
    ensures RecordOf([x], x.category, 0.0) == Record(x.category, NaN, 0.0)
  {
    SingleItemGroup(x);
    assert RoundTenth(0.0 / 60.0) == 0.0;
  }
}
