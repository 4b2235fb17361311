/** The task grouping engine behind `GET /tasks`: the listed rows, already in
    ascending date order, are gathered into a dictionary from group key to the
    list of {id, text, until} of the rows with that key. A row's key is its
    tag, or "without tag" when the tag is empty. Python dictionaries keep
    insertion order, so the result is a map together with its key order. */
module Grouping {
  import opened Common

  /** A row of the listing query: `SELECT tag, text, date, id`. */
  datatype Row = Row(tag: string, text: string, date: Date, id: int)

  /** One entry of a group in the response. */
  datatype Item = Item(id: int, text: string, until: Date)

  const Untagged := "without tag"

  function KeyOf(tag: string): string
  {
    if tag == "" then Untagged else tag
  }

  function ItemOf(r: Row): Item
  {
    Item(r.id, r.text, r.date)
  }

  predicate Occurs(rows: seq<Row>, k: string)
  {
    exists i :: 0 <= i < |rows| && KeyOf(rows[i].tag) == k
  }

  predicate Distinct(ks: seq<string>)
  {
    forall i, j :: 0 <= i < j < |ks| ==> ks[i] != ks[j]
  }

  predicate DateAscending(rows: seq<Row>)
  {
    forall i, j :: 0 <= i < j < |rows| ==> rows[i].date <= rows[j].date
  }

  /** The group of key `k`: the items of the rows with that key, in input order. */
  function Select(rows: seq<Row>, k: string): seq<Item>
    decreases |rows|
  {
    if |rows| == 0 then []
    else
      var last := rows[|rows| - 1];
      Select(rows[..|rows| - 1], k) + (if KeyOf(last.tag) == k then [ItemOf(last)] else [])
  }

  /** The group keys, each once, in the order of their first occurrence. */
  function Keys(rows: seq<Row>): seq<string>
    decreases |rows|
  {
    if |rows| == 0 then []
    else
      var k := KeyOf(rows[|rows| - 1].tag);
      var prev := Keys(rows[..|rows| - 1]);
      if k in prev then prev else prev + [k]
  }

  /** A group holds the items of exactly the rows with its key. */
  lemma {:induction false} SelectMembers(rows: seq<Row>, k: string)
    ensures forall x :: x in Select(rows, k) <==> exists i :: 0 <= i < |rows| && KeyOf(rows[i].tag) == k && ItemOf(rows[i]) == x
    decreases |rows|
  {
    if |rows| > 0 {
      SelectMembers(rows[..|rows| - 1], k);
      assert forall i :: 0 <= i < |rows| - 1 ==> rows[..|rows| - 1][i] == rows[i];
    }
  }

  /** Each key is listed once, and a key is listed exactly when some row has it. */
  lemma {:induction false} KeysExact(rows: seq<Row>)
    ensures Distinct(Keys(rows))
    ensures forall k :: k in Keys(rows) <==> Occurs(rows, k)
    decreases |rows|
  {
    if |rows| > 0 {
      KeysExact(rows[..|rows| - 1]);
      assert forall i :: 0 <= i < |rows| - 1 ==> rows[..|rows| - 1][i] == rows[i];
    }
  }

  /** The loop of `get_tasks`: for each row, create its key's list on first
      sight, then append the row's item to it. */
  method GroupTasks(rows: seq<Row>) returns (keys: seq<string>, groups: map<string, seq<Item>>)
    ensures keys == Keys(rows)
    ensures forall k :: k in groups <==> k in keys
    ensures forall k :: k in groups ==> groups[k] == Select(rows, k)
  {
    keys, groups := [], map[];
    for i := 0 to |rows|
      invariant keys == Keys(rows[..i])
      invariant forall k :: k in groups <==> k in keys
      invariant forall k :: k in groups ==> groups[k] == Select(rows[..i], k)
    {
      KeysStep(rows, i);
      GroupNonEmpty(rows[..i], KeyOf(rows[i].tag));
      ghost var before := groups;
      var row := rows[i];
      if row.tag == "" {
        if Untagged !in groups {
          groups := groups[Untagged := []];
          keys := keys + [Untagged];
        }
        groups := groups[Untagged := groups[Untagged] + [Item(row.id, row.text, row.date)]];
      } else {
        if row.tag !in groups {
          groups := groups[row.tag := []];
          keys := keys + [row.tag];
        }
        groups := groups[row.tag := groups[row.tag] + [Item(row.id, row.text, row.date)]];
      }
      forall k | k in groups
        ensures groups[k] == Select(rows[..i + 1], k)
      {
        SelectStep(rows, i, k);
        if k != KeyOf(row.tag) {
          assert groups[k] == before[k];
        }
      }
    }
    assert rows[..|rows|] == rows;
  }

  /** What one more row of the scan does to the keys. */
  lemma KeysStep(rows: seq<Row>, i: nat)
    requires i < |rows|
    ensures var key := KeyOf(rows[i].tag);
      Keys(rows[..i + 1]) == (if key in Keys(rows[..i]) then Keys(rows[..i]) else Keys(rows[..i]) + [key])
  {
    assert rows[..i + 1][..i] == rows[..i];
  }

  /** What one more row of the scan does to the group of key `k`. */
  lemma SelectStep(rows: seq<Row>, i: nat, k: string)
    requires i < |rows|
    ensures Select(rows[..i + 1], k) == Select(rows[..i], k) + (if KeyOf(rows[i].tag) == k then [ItemOf(rows[i])] else [])
  {
    assert rows[..i + 1][..i] == rows[..i];
  }

  // ---------------------------------------------------------------------
  // Properties of the grouping

  /** Grouping is stable: the group of a concatenation is the group of the
      first part followed by the group of the second. */
  lemma {:induction false} SelectAppend(a: seq<Row>, b: seq<Row>, k: string)
    ensures Select(a + b, k) == Select(a, k) + Select(b, k)
    decreases |b|
  {
    if |b| > 0 {
      var b' := b[..|b| - 1];
      assert (a + b)[..|a + b| - 1] == a + b';
      SelectAppend(a, b', k);
    } else {
      assert a + b == a;
    }
  }

  /** A key is listed exactly when its group is non-empty: no group is empty,
      and no row is left without a group. */
  lemma GroupNonEmpty(rows: seq<Row>, k: string)
    ensures Select(rows, k) != [] <==> k in Keys(rows)
  {
    KeysExact(rows);
    SelectMembers(rows, k);
    if k in Keys(rows) {
      var i :| 0 <= i < |rows| && KeyOf(rows[i].tag) == k;
      assert ItemOf(rows[i]) in Select(rows, k);
    }
  }

  /** The keys seen in a prefix of the rows are a prefix of all the keys. */
  lemma {:induction false} KeysOfPrefix(rows: seq<Row>, n: nat)
    requires n <= |rows|
    ensures Keys(rows[..n]) <= Keys(rows)
    decreases |rows|
  {
    if n < |rows| {
      var init := rows[..|rows| - 1];
      assert init[..n] == rows[..n];
      KeysOfPrefix(init, n);
    } else {
      assert rows[..n] == rows;
    }
  }

  /** Keys appear in first-occurrence order: when key `a` is listed before key
      `b`, every row with key `b` is preceded by some row with key `a`. */
  lemma KeysInFirstOccurrenceOrder(rows: seq<Row>, a: nat, b: nat, i: nat)
    requires a < b < |Keys(rows)|
    requires i < |rows| && KeyOf(rows[i].tag) == Keys(rows)[b]
    ensures exists j :: 0 <= j < i && KeyOf(rows[j].tag) == Keys(rows)[a]
  {
    var ks := Keys(rows);
    var before := Keys(rows[..i]);
    KeysExact(rows);
    KeysExact(rows[..i]);
    KeysOfPrefix(rows, i);
    KeysOfPrefix(rows, i + 1);
    assert rows[..i + 1][..i] == rows[..i];
    if ks[b] in before {
      var p :| 0 <= p < |before| && before[p] == ks[b];
      assert ks[p] == ks[b];
      assert p == b;
    } else {
      assert Keys(rows[..i + 1]) == before + [ks[b]];
      assert ks[|before|] == ks[b];
    }
    assert ks[a] == before[a];
    assert ks[a] in before;
    var j :| 0 <= j < i && KeyOf(rows[..i][j].tag) == ks[a];
    assert rows[..i][j] == rows[j];
  }

  /** Each group keeps the input's order, so date-ascending rows give
      date-ascending groups. */
  lemma {:induction false} GroupsDateAscending(rows: seq<Row>, k: string)
    requires DateAscending(rows)
    ensures forall p, q :: 0 <= p < q < |Select(rows, k)| ==> Select(rows, k)[p].until <= Select(rows, k)[q].until
    decreases |rows|
  {
    if |rows| > 0 {
      var init := rows[..|rows| - 1];
      var last := rows[|rows| - 1];
      GroupsDateAscending(init, k);
      var prev := Select(init, k);
      SelectMembers(init, k);
      forall p | 0 <= p < |prev|
        ensures prev[p].until <= last.date
      {
        assert prev[p] in prev;
        var i :| 0 <= i < |init| && KeyOf(init[i].tag) == k && ItemOf(init[i]) == prev[p];
        assert init[i] == rows[i];
      }
    }
  }

  // ---------------------------------------------------------------------
  // Partition: every row lands in exactly one group

  /** The items of all rows, in input order. */
  function Items(rows: seq<Row>): seq<Item>
  {
    seq(|rows|, i requires 0 <= i < |rows| => ItemOf(rows[i]))
  }

  /** The groups of the keys `ks`, one after the other. */
  function Concat(rows: seq<Row>, ks: seq<string>): seq<Item>
  {
    if ks == [] then [] else Select(rows, ks[0]) + Concat(rows, ks[1..])
  }

  lemma {:induction false} ConcatSnoc(rows: seq<Row>, ks: seq<string>, k: string)
    ensures Concat(rows, ks + [k]) == Concat(rows, ks) + Select(rows, k)
  {
    if ks == [] {
      assert ks + [k] == [k];
    } else {
      assert (ks + [k])[1..] == ks[1..] + [k];
      ConcatSnoc(rows, ks[1..], k);
    }
  }

  /** Adding a row adds its item once to the concatenated groups of distinct
      keys that include its key, and nothing when they do not. */
  lemma {:induction false} ConcatExtend(rows: seq<Row>, r: Row, ks: seq<string>)
    requires Distinct(ks)
    ensures multiset(Concat(rows + [r], ks))
         == multiset(Concat(rows, ks)) + (if KeyOf(r.tag) in ks then multiset{ItemOf(r)} else multiset{})
  {
    if ks != [] {
      var rows' := rows + [r];
      assert rows'[..|rows'| - 1] == rows;
      assert KeyOf(r.tag) in ks <==> KeyOf(r.tag) == ks[0] || KeyOf(r.tag) in ks[1..];
      if KeyOf(r.tag) == ks[0] {
        assert KeyOf(r.tag) !in ks[1..];
      }
      ConcatExtend(rows, r, ks[1..]);
    }
  }

  /** The groups partition the listed rows: taken together they hold every
      row's item exactly as often as the rows do. */
  lemma {:induction false} GroupsPartitionRows(rows: seq<Row>)
    ensures multiset(Concat(rows, Keys(rows))) == multiset(Items(rows))
    decreases |rows|
  {
    if |rows| > 0 {
      var init := rows[..|rows| - 1];
      var r := rows[|rows| - 1];
      assert rows == init + [r];
      assert Items(rows) == Items(init) + [ItemOf(r)];
      GroupsPartitionRows(init);
      var ks := Keys(init);
      KeysExact(init);
      ConcatExtend(init, r, ks);
      if KeyOf(r.tag) !in ks {
        ConcatSnoc(rows, ks, KeyOf(r.tag));
        GroupNonEmpty(init, KeyOf(r.tag));
        assert Select(rows, KeyOf(r.tag)) == [ItemOf(r)];
      }
    }
  }

  /** A row tagged with the literal "without tag" shares its group with the
      untagged rows. */
  lemma UntaggedShareGroup(rows: seq<Row>, i: nat, j: nat)
    requires i < |rows| && j < |rows|
    requires rows[i].tag == "" && rows[j].tag == Untagged
    ensures ItemOf(rows[i]) in Select(rows, Untagged) && ItemOf(rows[j]) in Select(rows, Untagged)
  {
    SelectMembers(rows, Untagged);
  }

  /** Two "work" tasks, an untagged one and a "personal" one, in date order. */
  function Sample(d1: Date, d2: Date, d3: Date, d4: Date): seq<Row>
  {
    [Row("work", "a", d1, 1), Row("work", "b", d2, 2), Row("", "c", d3, 3), Row("personal", "d", d4, 4)]
  }

  /** The sample gives three keys: "work", then "without tag", then "personal". */
  lemma SampleKeys(d1: Date, d2: Date, d3: Date, d4: Date)
    ensures Keys(Sample(d1, d2, d3, d4)) == ["work", Untagged, "personal"]
  {
    var rows := Sample(d1, d2, d3, d4);
    assert rows[..0] == [];
    assert rows[..4] == rows;
    assert Untagged != "work" && "personal" != "work" && "personal" != Untagged;
    KeysStep(rows, 0);
    assert Keys(rows[..1]) == ["work"];
    KeysStep(rows, 1);
    assert Keys(rows[..2]) == ["work"];
    KeysStep(rows, 2);
    assert Keys(rows[..3]) == ["work", Untagged];
    KeysStep(rows, 3);
  }

  /** The sample's groups: both work tasks under "work", in date order, and one
      task in each of the two other groups. */
  lemma SampleGroups(d1: Date, d2: Date, d3: Date, d4: Date)
    ensures Select(Sample(d1, d2, d3, d4), "work") == [Item(1, "a", d1), Item(2, "b", d2)]
    ensures Select(Sample(d1, d2, d3, d4), Untagged) == [Item(3, "c", d3)]
    ensures Select(Sample(d1, d2, d3, d4), "personal") == [Item(4, "d", d4)]
  {
    var rows := Sample(d1, d2, d3, d4);
    assert Untagged != "work" && "personal" != "work" && "personal" != Untagged;
    SampleSelect(rows, "work");
    SampleSelect(rows, Untagged);
    SampleSelect(rows, "personal");
  }

  /** The group of key `k` of four rows, unfolded one row at a time. */
  lemma SampleSelect(rows: seq<Row>, k: string)
    requires |rows| == 4
    ensures Select(rows, k) == (if KeyOf(rows[0].tag) == k then [ItemOf(rows[0])] else [])
                             + (if KeyOf(rows[1].tag) == k then [ItemOf(rows[1])] else [])
                             + (if KeyOf(rows[2].tag) == k then [ItemOf(rows[2])] else [])
                             + (if KeyOf(rows[3].tag) == k then [ItemOf(rows[3])] else [])
  {
    assert rows[..0] == [];
    assert rows[..4] == rows;
    var picks := seq(4, i requires 0 <= i < 4 => if KeyOf(rows[i].tag) == k then [ItemOf(rows[i])] else []);
    SelectStep(rows, 0, k);
    assert Select(rows[..1], k) == picks[0];
    SelectStep(rows, 1, k);
    assert Select(rows[..2], k) == picks[0] + picks[1];
    SelectStep(rows, 2, k);
    assert Select(rows[..3], k) == picks[0] + picks[1] + picks[2];
    SelectStep(rows, 3, k);
  }
}
