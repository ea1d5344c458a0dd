/** Column names generated from the sub-keys of one row (`unique_column_name` and the
    per-row `row_columns` counter of `fetch_data`): the n-th occurrence of a sub-key
    within a row, counted from zero, becomes the column `{key}_{n}`. */
module ColumnNames {
  import opened Results
  import opened Decimal
  import opened Text
  import opened OrderedSet

  /** `f'{key}_{n}'`. */
  function ColumnName(key: string, n: nat): string {
    key + "_" + NatToDecimal(n)
  }

  /** Splits a column name at its last underscore into the sub-key and the
      occurrence number; the partner of `ColumnName`. */
  function ParseColumnName(column: string): Option<(string, nat)> {
    var i :- LastIndexOf(column, '_');
    var suffix := column[i + 1..];
    if 0 < |suffix| && AllDigits(suffix) then Some((column[..i], DecimalValue(suffix))) else None
  }

  lemma LastIndexOfIs(s: string, c: char, k: nat)
    requires k < |s| && s[k] == c && c !in s[k + 1..]
    ensures LastIndexOf(s, c) == Some(k)
  {
    assert c in s;
  }

  /** Every generated name can be taken apart again, so different (sub-key,
      occurrence) pairs never produce the same column. */
  lemma ParseColumnNameOf(key: string, n: nat)
    ensures ParseColumnName(ColumnName(key, n)) == Some((key, n))
  {
    var d := NatToDecimal(n);
    var c := ColumnName(key, n);
    assert c[|key| + 1..] == d;
    assert c[..|key|] == key;
    assert forall i :: 0 <= i < |d| ==> d[i] != '_';
    LastIndexOfIs(c, '_', |key|);
  }

  lemma ColumnNameInjective(k1: string, n1: nat, k2: string, n2: nat)
    requires ColumnName(k1, n1) == ColumnName(k2, n2)
    ensures k1 == k2 && n1 == n2
  {
    ParseColumnNameOf(k1, n1);
    ParseColumnNameOf(k2, n2);
  }

  /** `unique_column_name(columns, name)`: bumps the counter of `name` (a missing
      counter reads as -1, so the first use records 0) and names the column after the
      new count; the returned pair is the name and the updated counter map. */
  function UniqueColumnName(counts: map<string, nat>, name: string): (r: (string, map<string, nat>))
    ensures r.1.Keys == counts.Keys + {name}
    ensures r.0 == ColumnName(name, r.1[name])
    ensures name !in counts ==> r.1[name] == 0
    ensures name in counts ==> r.1[name] == counts[name] + 1
    ensures forall k :: k in counts && k != name ==> r.1[k] == counts[k]
    ensures ParseColumnName(r.0) == Some((name, r.1[name]))
  {
    var n := if name in counts then counts[name] + 1 else 0;
    ParseColumnNameOf(name, n);
    (ColumnName(name, n), counts[name := n])
  }

  /** The two documented calls: a name already counted once gets the suffix `_1`,
      and a name not yet counted gets `_0`; the counter map is updated in place. */
  lemma UniqueColumnNameExamples()
    ensures UniqueColumnName(map["test1" := 0], "test1") == ("test1_1", map["test1" := 1])
    ensures UniqueColumnName(map[], "test1") == ("test1_0", map["test1" := 0])
  {
    var existing := UniqueColumnName(map["test1" := 0], "test1");
    assert existing.1 == map["test1" := 1];
    assert existing.0 == "test1" + "_" + NatToDecimal(1);
    assert NatToDecimal(1) == [DigitChar(1)] == "1";
    assert "test1" + "_" + "1" == "test1_1";
    var first := UniqueColumnName(map[], "test1");
    assert first.1 == map["test1" := 0];
    assert first.0 == "test1" + "_" + "0" == "test1_0";
  }

  /** The naming loop of one row, run with a fresh counter map: the generated names
      and the counters left at the end. Each name is the sub-key followed by the
      number of earlier occurrences of that sub-key in the same row. */
  function NameColumns(keys: seq<string>): (r: (seq<string>, map<string, nat>))
    ensures |r.0| == |keys|
    ensures forall j {:trigger r.0[j]} :: 0 <= j < |keys| ==>
      r.0[j] == ColumnName(keys[j], multiset(keys[..j])[keys[j]])
    ensures forall k :: k in r.1 <==> k in keys
    ensures forall k :: k in r.1 ==> r.1[k] + 1 == multiset(keys)[k]
    decreases |keys|
  {
    if |keys| == 0 then
      ([], map[])
    else
      var last := keys[|keys| - 1];
      var prefix := keys[..|keys| - 1];
      var init := NameColumns(prefix);
      var next := UniqueColumnName(init.1, last);
      SnocFacts(keys);
      assert next.1[last] == multiset(prefix)[last] by {
        assert last !in init.1 ==> last !in prefix;
      }
      (init.0 + [next.0], next.1)
  }

  /** How a list relates to the list without its last element. */
  lemma SnocFacts(keys: seq<string>)
    requires |keys| > 0
    ensures keys == keys[..|keys| - 1] + [keys[|keys| - 1]]
    ensures multiset(keys) == multiset(keys[..|keys| - 1]) + multiset{keys[|keys| - 1]}
    ensures forall j :: 0 <= j < |keys| ==> keys[..j] == keys[..|keys| - 1][..j]
  {
    assert keys == keys[..|keys| - 1] + [keys[|keys| - 1]];
  }

  /** Within one row no two generated column names coincide, even when a sub-key
      repeats. */
  lemma NamesDistinct(keys: seq<string>)
    ensures NoDup(NameColumns(keys).0)
  {
    var names := NameColumns(keys).0;
    forall i, j | 0 <= i < j < |keys|
      ensures names[i] != names[j]
    {
      if names[i] == names[j] {
        ColumnNameInjective(keys[i], multiset(keys[..i])[keys[i]], keys[j], multiset(keys[..j])[keys[j]]);
        CountGrows(keys, i, j);
      }
    }
  }

  /** Every occurrence of a sub-key raises its count in the prefixes that follow. */
  lemma {:induction false} CountGrows(keys: seq<string>, i: nat, j: nat)
    requires i < j <= |keys|
    ensures multiset(keys[..j])[keys[i]] > multiset(keys[..i])[keys[i]]
    decreases j
  {
    if j == i + 1 {
      assert keys[..j] == keys[..i] + [keys[i]];
    } else {
      CountGrows(keys, i, j - 1);
      assert keys[..j] == keys[..j - 1] + [keys[j - 1]];
    }
  }

  /** A sub-key that repeats after another one: its second occurrence is numbered 1
      while the other sub-key still starts at 0. */
  lemma RepeatedKey(a: string, b: string)
    requires a != b
    ensures NameColumns([a, b, a]).0 == [ColumnName(a, 0), ColumnName(b, 0), ColumnName(a, 1)]
  {
    var keys := [a, b, a];
    var names := NameColumns(keys).0;
    assert names[0] == ColumnName(a, 0) by {
      assert keys[..0] == [];
    }
    assert names[1] == ColumnName(b, 0) by {
      assert keys[..1] == [a];
    }
    assert names[2] == ColumnName(a, 1) by {
      assert keys[..2] == [a, b];
      assert multiset(keys[..2])[a] == 1 by {
        assert multiset([a, b]) == multiset{a} + multiset{b};
      }
    }
    assert names == [names[0], names[1], names[2]];
  }
}
