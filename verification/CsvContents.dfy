/**
  What is in an export: which columns, in which order, and what each cell says, in
  terms of the items' own properties.
 */
module CsvContents {
  import opened Platform
  import opened Csv

  // ---- The properties of an item ----

  /** An item's properties spelled out front to back: a nested object's under joined names. */
  lemma {:induction false} ExpandCons(key: string, value: Value, rest: Record)
    ensures Expand([]) == []
    ensures Expand([(key, value)] + rest) ==
            (if value.Nested?
             then seq(|value.fields|, j requires 0 <= j < |value.fields| =>
                        (key + "_" + value.fields[j].0, value.fields[j].1))
             else [(key, value)])
            + Expand(rest)
  {
    var item := [(key, value)] + rest;
    if value.Nested? {
      PrefixedAt(key, value.fields);
    }
    if rest == [] {
      assert item[..0] == [];
    } else {
      var n := |rest| - 1;
      assert item[..|item| - 1] == [(key, value)] + rest[..n];
      ExpandCons(key, value, rest[..n]);
    }
  }

  lemma {:induction false} PrefixedAt(key: string, fields: Record)
    ensures |Prefixed(key, fields)| == |fields|
    ensures forall j :: 0 <= j < |fields| ==> Prefixed(key, fields)[j] == (key + "_" + fields[j].0, fields[j].1)
  {
    if fields != [] {
      PrefixedAt(key, fields[..|fields| - 1]);
    }
  }

  // ---- The columns ----

  /** The first place of a name. */
  function FirstPlace(r: Record, key: string): (p: nat)
    requires HasKey(r, key)
    ensures p < |r| && r[p].0 == key && forall i :: 0 <= i < p ==> r[i].0 != key
  {
    HasKeyCons(r);
    if r[0].0 == key then 0 else 1 + FirstPlace(r[1..], key)
  }

  /** The names of `flat` stand in the order of their first places in `all`. */
  ghost predicate Ordered(flat: Record, all: Record) {
    && (forall i :: 0 <= i < |flat| ==> HasKey(all, flat[i].0))
    && (forall i, j :: 0 <= i < j < |flat| ==> FirstPlace(all, flat[i].0) < FirstPlace(all, flat[j].0))
  }

  /** Assigning keeps the names in place, and puts a new one at the end. */
  lemma {:induction false} AssignNames(r: Record, key: string, value: Value)
    ensures HasKey(r, key) ==>
              |Assign(r, key, value)| == |r| && forall i :: 0 <= i < |r| ==> Assign(r, key, value)[i].0 == r[i].0
    ensures !HasKey(r, key) ==> Assign(r, key, value) == r + [(key, value)]
  {
    if r != [] {
      HasKeyCons(r);
      if r[0].0 != key {
        AssignNames(r[1..], key, value);
      }
    }
  }

  lemma FirstPlaceSnoc(all: Record, key: string, value: Value, k: string)
    ensures HasKey(all, k) ==> HasKey(all + [(key, value)], k) && FirstPlace(all + [(key, value)], k) == FirstPlace(all, k)
    ensures HasKey(all + [(key, value)], key)
    ensures !HasKey(all, key) ==> FirstPlace(all + [(key, value)], key) == |all|
  {
    var more := all + [(key, value)];
    assert more[|all|].0 == key;
    if HasKey(all, k) {
      assert more[FirstPlace(all, k)].0 == k;
    }
    if !HasKey(all, key) {
      assert forall i :: 0 <= i < |all| ==> more[i] == all[i] && all[i].0 != key;
    }
  }

  lemma AssignOrdered(flat: Record, all: Record, key: string, value: Value)
    requires Collapses(flat, all) && Ordered(flat, all)
    ensures Ordered(Assign(flat, key, value), all + [(key, value)])
  {
    AssignNames(flat, key, value);
    forall k ensures HasKey(all, k) ==> HasKey(all + [(key, value)], k) && FirstPlace(all + [(key, value)], k) == FirstPlace(all, k) {
      FirstPlaceSnoc(all, key, value, k);
    }
    FirstPlaceSnoc(all, key, value, key);
    assert HasKey(flat, key) <==> HasKey(all, key);
    hide Assign, FirstPlace, HasKey;
  }

  lemma {:induction false} NestedOrdered(flat: Record, all: Record, key: string, fields: Record)
    requires Collapses(flat, all) && Ordered(flat, all)
    ensures Ordered(AssignNested(flat, key, fields), all + Prefixed(key, fields))
  {
    hide Collapses, Ordered;
    if fields == [] {
      assert all + [] == all;
    } else {
      var n := |fields| - 1;
      NestedOrdered(flat, all, key, fields[..n]);
      NestedCollapses(flat, all, key, fields[..n]);
      AssignOrdered(AssignNested(flat, key, fields[..n]), all + Prefixed(key, fields[..n]),
                    key + "_" + fields[n].0, fields[n].1);
      assert all + Prefixed(key, fields) ==
             all + Prefixed(key, fields[..n]) + [(key + "_" + fields[n].0, fields[n].1)];
    }
  }

  lemma {:induction false} FlattenOrdered(item: Record)
    ensures Ordered(Flatten(item), Expand(item))
  {
    hide Collapses, Ordered;
    if item == [] {
      NothingOrdered();
    } else {
      var n := |item| - 1;
      FlattenOrdered(item[..n]);
      FlattenCollapses(item[..n]);
      var (key, value) := item[n];
      if value.Nested? {
        NestedOrdered(Flatten(item[..n]), Expand(item[..n]), key, value.fields);
      } else {
        AssignOrdered(Flatten(item[..n]), Expand(item[..n]), key, value);
      }
    }
  }

  lemma NothingOrdered()
    ensures Ordered([], [])
  {
  }

  /** The columns are the names of the first item's properties, each once, in the order they first occur. */
  lemma HeadersExactly(data: seq<Record>)
    requires data != []
    ensures var headers, all := Headers(data), Expand(data[0]);
            && (forall h :: h in headers <==> HasKey(all, h))
            && (forall i, j :: 0 <= i < j < |headers| ==> headers[i] != headers[j])
            && (forall i, j :: 0 <= i < j < |headers| ==> FirstPlace(all, headers[i]) < FirstPlace(all, headers[j]))
  {
    var headers, flat, all := Headers(data), Flatten(data[0]), Expand(data[0]);
    FlattenCollapses(data[0]);
    FlattenOrdered(data[0]);
    forall h ensures h in headers <==> HasKey(all, h) {
      if HasKey(flat, h) {
        var i :| 0 <= i < |flat| && flat[i].0 == h;
        assert headers[i] == h;
      }
    }
    hide FirstPlace, Flatten, Expand;
  }

  // ---- The cells ----

  /** Row i, column k is the text of the value that item i gave the column's name last, missing if it has none. */
  lemma CellsExactly(data: seq<Record>)
    requires data != []
    ensures var headers, table := Headers(data), Table(data);
            && |table| == |data| + 1 && table[0] == headers
            && forall i, k :: 0 <= i < |data| && 0 <= k < |headers| ==>
                 |table[i + 1]| == |headers| && table[i + 1][k] == CellText(LastValue(Expand(data[i]), headers[k]))
  {
    hide Flatten, Expand, LastValue, Headers, CellText;
    forall i | 0 <= i < |data| ensures Collapses(Flatten(data[i]), Expand(data[i])) {
      FlattenCollapses(data[i]);
    }
  }

  /** The last value of a name stands at its last place. */
  lemma {:induction false} LastValueAt(r: Record, key: string) returns (i: nat)
    requires HasKey(r, key)
    ensures i < |r| && r[i] == (key, LastValue(r, key))
    ensures forall j :: i < j < |r| ==> r[j].0 != key
  {
    var n := |r| - 1;
    if r[n].0 == key {
      i := n;
    } else {
      var k :| 0 <= k < |r| && r[k].0 == key;
      assert r[..n][k].0 == key;
      i := LastValueAt(r[..n], key);
    }
  }

  lemma {:induction false} NoLastValue(r: Record, key: string)
    requires !HasKey(r, key)
    ensures LastValue(r, key) == Missing
  {
    if r != [] {
      assert forall i :: 0 <= i < |r| ==> r[i].0 != key;
      NoLastValue(r[..|r| - 1], key);
    }
  }

  /** The text of an array: nothing, or its items in order with "; " before each but the first. */
  lemma {:induction false} ItemsText(items: seq<string>, last: string)
    ensures CellText(Strings([])) == ""
    ensures CellText(Strings(items + [last])) == if items == [] then last else CellText(Strings(items)) + "; " + last
  {
    var all := items + [last];
    if items != [] {
      ItemsText(items[1..], last);
      assert all[1..] == items[1..] + [last];
    }
  }

  /** How a cell is written: texts and arrays as one quoted field, everything else bare. */
  lemma CellForm(v: Value)
    ensures match v
            case Missing => Cell(v) == ""
            case Date(iso) => Cell(v) == iso
            case Raw(shown) => Cell(v) == shown
            case Nested(_) => Cell(v) == "[object Object]"
            case Str(text) => |Cell(v)| > 0 && Cell(v)[0] == '"' && ReadQuoted(Cell(v)[1..]) == Some((text, ""))
            case Strings(_) => |Cell(v)| > 0 && Cell(v)[0] == '"' && ReadQuoted(Cell(v)[1..]) == Some((CellText(v), ""))
  {
    if v.Str? || v.Strings? {
      ReadEscaped(CellText(v), "");
      assert Cell(v)[1..] == Escape(CellText(v)) + ['"'] + "";
    }
  }
}
