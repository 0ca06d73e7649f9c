/** Data frames as ordered sequences of named real-valued columns, and the
    in-place column drop that the filter applies to them. */
module Frames {

  /** One named column; `values[k]` is the value in row k. */
  datatype Column = Column(name: string, values: seq<real>)

  function Names(t: seq<Column>): seq<string>
  {
    seq(|t|, i requires 0 <= i < |t| => t[i].name)
  }

  predicate HasColumn(t: seq<Column>, f: string)
  {
    exists i :: 0 <= i < |t| && t[i].name == f
  }

  predicate DistinctNames(t: seq<Column>)
  {
    forall i, j {:trigger t[i].name, t[j].name} :: 0 <= i < j < |t| ==> t[i].name != t[j].name
  }

  /** Every column has `n` rows. */
  predicate Heights(t: seq<Column>, n: nat)
  {
    forall i :: 0 <= i < |t| ==> |t[i].values| == n
  }

  /** Position of the first column named `f`. */
  function IndexOf(t: seq<Column>, f: string): (i: nat)
    requires HasColumn(t, f)
    ensures i < |t| && t[i].name == f
    ensures forall k {:trigger t[k].name} :: 0 <= k < i ==> t[k].name != f
  {
    if t[0].name == f then 0
    else
      assert HasColumn(t[1..], f) by {
        var k :| 0 <= k < |t| && t[k].name == f;
        assert t[1..][k - 1].name == f;
      }
      1 + IndexOf(t[1..], f)
  }

  /** `frame[f]`: the values of the column named `f`. */
  function Lookup(t: seq<Column>, f: string): (r: seq<real>)
    requires HasColumn(t, f)
    ensures DistinctNames(t) ==> forall i {:trigger t[i].name} :: 0 <= i < |t| && t[i].name == f ==> r == t[i].values
  {
    t[IndexOf(t, f)].values
  }

  /** The columns of `t` whose name is not listed, in their original order. */
  function Remove(t: seq<Column>, labels: seq<string>): (r: seq<Column>)
    ensures |r| <= |t|
    ensures labels == [] ==> r == t
  {
    if t == [] then []
    else if t[0].name in labels then Remove(t[1..], labels)
    else [t[0]] + Remove(t[1..], labels)
  }

  /** Exactly the columns whose name is not listed survive. */
  lemma {:induction false} RemoveMembers(t: seq<Column>, labels: seq<string>)
    ensures forall col :: col in Remove(t, labels) <==> col in t && col.name !in labels
  {
    if t != [] {
      RemoveMembers(t[1..], labels);
      assert t == [t[0]] + t[1..];
    }
  }

  /** Removing the same labels from two frames with the same column names
      leaves them with the same column names. */
  lemma {:induction false} RemoveSameNames(t: seq<Column>, u: seq<Column>, labels: seq<string>)
    requires Names(t) == Names(u)
    ensures Names(Remove(t, labels)) == Names(Remove(u, labels))
  {
    assert |t| == |Names(t)| == |Names(u)| == |u|;
    if t != [] {
      assert t[0].name == Names(t)[0] == Names(u)[0] == u[0].name;
      assert Names(t[1..]) == Names(u[1..]) by {
        forall i | 0 <= i < |t| - 1 ensures Names(t[1..])[i] == Names(u[1..])[i] {
          assert Names(t[1..])[i] == Names(t)[i + 1];
          assert Names(u[1..])[i] == Names(u)[i + 1];
        }
      }
      RemoveSameNames(t[1..], u[1..], labels);
      if t[0].name !in labels {
        var rt, ru := Remove(t[1..], labels), Remove(u[1..], labels);
        assert Names([t[0]] + rt) == [t[0].name] + Names(rt);
        assert Names([u[0]] + ru) == [u[0].name] + Names(ru);
      }
    }
  }

  lemma HasColumnIn(t: seq<Column>, f: string)
    ensures HasColumn(t, f) <==> exists col :: col in t && col.name == f
  {
    if HasColumn(t, f) {
      var k :| 0 <= k < |t| && t[k].name == f;
      assert t[k] in t;
    }
  }

  /** Removing keeps exactly the columns whose name is not listed, and
      keeps the names distinct. */
  lemma RemoveNames(t: seq<Column>, labels: seq<string>)
    ensures forall f :: HasColumn(Remove(t, labels), f) <==> HasColumn(t, f) && f !in labels
    ensures DistinctNames(t) ==> DistinctNames(Remove(t, labels))
  {
    var r := Remove(t, labels);
    RemoveMembers(t, labels);
    forall f ensures HasColumn(r, f) <==> HasColumn(t, f) && f !in labels {
      HasColumnIn(r, f);
      HasColumnIn(t, f);
    }
    if DistinctNames(t) {
      RemoveDistinct(t, labels);
    }
  }

  /** The columns after the first have distinct names, none of them the first's. */
  lemma DistinctTail(t: seq<Column>)
    requires DistinctNames(t) && t != []
    ensures DistinctNames(t[1..])
    ensures forall col :: col in t[1..] ==> col.name != t[0].name
  {
    forall i, j | 0 <= i < j < |t[1..]| ensures t[1..][i].name != t[1..][j].name {
      assert t[1..][i] == t[i + 1] && t[1..][j] == t[j + 1];
    }
    forall col | col in t[1..] ensures col.name != t[0].name {
      var m :| 0 <= m < |t[1..]| && t[1..][m] == col;
      assert t[m + 1] == col;
    }
  }

  /** A column whose name no other column has can be put in front. */
  lemma DistinctCons(x: Column, rest: seq<Column>)
    requires DistinctNames(rest)
    requires forall col :: col in rest ==> col.name != x.name
    ensures DistinctNames([x] + rest)
  {
    var r := [x] + rest;
    forall i, j | 0 <= i < j < |r| ensures r[i].name != r[j].name {
      assert r[j] == rest[j - 1] && r[j] in rest;
      if i > 0 {
        assert r[i] == rest[i - 1];
      }
    }
  }

  lemma {:induction false} RemoveDistinct(t: seq<Column>, labels: seq<string>)
    requires DistinctNames(t)
    ensures DistinctNames(Remove(t, labels))
  {
    if t != [] {
      DistinctTail(t);
      RemoveDistinct(t[1..], labels);
      RemoveMembers(t[1..], labels);
      if t[0].name !in labels {
        DistinctCons(t[0], Remove(t[1..], labels));
      }
    }
  }

  /** Removing columns keeps every remaining column's height. */
  lemma {:induction false} RemoveHeights(t: seq<Column>, labels: seq<string>, n: nat)
    requires Heights(t, n)
    ensures Heights(Remove(t, labels), n)
  {
    if t != [] {
      assert Heights(t[1..], n) by {
        forall i | 0 <= i < |t[1..]| ensures |t[1..][i].values| == n {
          assert t[1..][i] == t[i + 1];
        }
      }
      RemoveHeights(t[1..], labels, n);
    }
  }

  /** The listed labels that name no column of `t`, in the order listed. */
  function Missing(t: seq<Column>, labels: seq<string>): (r: seq<string>)
    ensures |r| <= |labels|
  {
    if labels == [] then []
    else (if HasColumn(t, labels[0]) then [] else [labels[0]]) + Missing(t, labels[1..])
  }

  /** Labels that all name columns leave nothing missing. */
  lemma {:induction false} MissingNone(t: seq<Column>, labels: seq<string>)
    requires forall x :: x in labels ==> HasColumn(t, x)
    ensures Missing(t, labels) == []
  {
    if labels != [] {
      assert labels[0] in labels;
      MissingNone(t, labels[1..]);
    }
  }

  /** A label is reported missing exactly when it is listed and names no column. */
  lemma {:induction false} MissingMembers(t: seq<Column>, labels: seq<string>)
    ensures forall x :: x in Missing(t, labels) <==> x in labels && !HasColumn(t, x)
  {
    if labels != [] {
      MissingMembers(t, labels[1..]);
      assert labels == [labels[0]] + labels[1..];
    }
  }

  /** A pandas data frame: named columns of equal height. */
  class Frame {
    var columns: seq<Column>
    const height: nat

    ghost predicate Valid()
      reads this
    {
      DistinctNames(columns) && Heights(columns, height)
    }

    constructor (columns: seq<Column>, height: nat)
      requires DistinctNames(columns)
      requires Heights(columns, height)
      ensures Valid() && this.columns == columns && this.height == height
    {
      this.columns := columns;
      this.height := height;
    }

    /** `drop(columns=labels, inplace=True)` with the default `errors='raise'`:
        when a label names no column nothing is dropped and the missing
        labels are reported; otherwise the listed columns are removed and the
        remaining columns keep their values and their order. */
    method Drop(labels: seq<string>) returns (missing: seq<string>)
      requires Valid()
      modifies this
      ensures Valid()
      ensures missing == Missing(old(columns), labels)
      ensures columns == if missing == [] then Remove(old(columns), labels) else old(columns)
    {
      missing := Missing(columns, labels);
      if missing == [] {
        RemoveNames(columns, labels);
        RemoveHeights(columns, labels, height);
        columns := Remove(columns, labels);
      }
    }
  }

  lemma LookupRemove(t: seq<Column>, labels: seq<string>, f: string)
    requires DistinctNames(t) && HasColumn(t, f) && f !in labels
    ensures HasColumn(Remove(t, labels), f) && Lookup(Remove(t, labels), f) == Lookup(t, f)
  {
    var r := Remove(t, labels);
    RemoveNames(t, labels);
    RemoveMembers(t, labels);
    var i := IndexOf(t, f);
    assert t[i] in r;
    var k :| 0 <= k < |r| && r[k] == t[i];
  }
}
