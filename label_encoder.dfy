/**
 The category label encoder of the data-preparation script: the distinct
 values of the `category` column are enumerated, each gets the index of
 its position in that enumeration (the `cats` dictionary), every row's
 category is looked up to give the `labels` column, and that column is
 attached to the dataset beside `category`.

 The enumeration order of a Python `set` is unspecified, so it is a
 parameter `order` here: any duplicate-free sequence holding exactly the
 column's distinct values (`IsEnumerationOf`). Every property below holds
 for every such order.
 */
module LabelEncoder {

  type Category = string

  /** The ways the encoder can fail: a dictionary lookup of a missing key,
      or a new column whose length differs from the number of rows. */
  datatype Error =
    | KeyError(key: Category)
    | LengthMismatch(rows: nat, given: nat)

  datatype Result<T> = Ok(value: T) | Err(error: Error)

  /** One row of the labelled dataset: its category and its new label. */
  datatype Row = Row(category: Category, labels: int)

  // ---------------------------------------------------------------------
  // The distinct-value set and its enumeration
  // ---------------------------------------------------------------------

  /** A column never holds more distinct values than rows. */
  lemma {:induction false} DistinctAtMostRows(column: seq<Category>)
    ensures |(set c | c in column)| <= |column|
    decreases |column|
  {
    if column != [] {
      var n := |column| - 1;
      DistinctAtMostRows(column[..n]);
      assert column == column[..n] + [column[n]];
      assert (set c | c in column) == (set c | c in column[..n]) + {column[n]};
    }
  }

  /** `set(column)`: the distinct categories of a column. There are never
      more of them than rows. */
  function Distinct(column: seq<Category>): (s: set<Category>)
    ensures forall c :: c in s <==> c in column
    ensures |s| <= |column|
  {
    DistinctAtMostRows(column);
    set c | c in column
  }

  /** K, the number of distinct categories. */
  function CategoryCount(column: seq<Category>): (k: nat)
    ensures k <= |column|
  {
    |Distinct(column)|
  }

  predicate NoDuplicates(s: seq<Category>)
  {
    forall i, j :: 0 <= i < j < |s| ==> s[i] != s[j]
  }

  /** `order` is one of the iteration orders `set(column)` may produce. */
  predicate IsEnumerationOf(order: seq<Category>, column: seq<Category>)
  {
    NoDuplicates(order) && Distinct(order) == Distinct(column)
  }

  /** The integers 0 .. k-1. */
  function Range(k: nat): (r: set<int>)
    ensures forall i :: i in r <==> 0 <= i < k
    ensures |r| == k
  {
    if k == 0 then {} else Range(k - 1) + {k - 1}
  }

  /** One particular enumeration (first occurrences, in column order); it
      shows that every column, the empty one included, has an enumeration,
      so the encoder below is defined on every column. */
  function Dedup(column: seq<Category>): (order: seq<Category>)
    ensures IsEnumerationOf(order, column)
    decreases |column|
  {
    if column == [] then []
    else
      var n := |column| - 1;
      var prefix := Dedup(column[..n]);
      assert Distinct(column) == Distinct(column[..n]) + {column[n]} by {
        assert column == column[..n] + [column[n]];
      }
      if column[n] in prefix then prefix else prefix + [column[n]]
  }

  /** A duplicate-free enumeration has exactly as many elements as it has
      distinct values. */
  lemma {:induction false} EnumerationLength(order: seq<Category>)
    requires NoDuplicates(order)
    ensures |Distinct(order)| == |order|
    decreases |order|
  {
    if order != [] {
      var n := |order| - 1;
      EnumerationLength(order[..n]);
      assert order == order[..n] + [order[n]];
      assert Distinct(order) == Distinct(order[..n]) + {order[n]};
      assert order[n] !in Distinct(order[..n]);
    }
  }

  /** Every enumeration of a column has K elements. */
  lemma EnumerationSize(order: seq<Category>, column: seq<Category>)
    requires IsEnumerationOf(order, column)
    ensures |order| == CategoryCount(column)
  {
    EnumerationLength(order);
  }

  // ---------------------------------------------------------------------
  // cats = {cat: i for i, cat in enumerate(order)}
  // ---------------------------------------------------------------------

  /** The dictionary comprehension over `enumerate(order)`. Entries are
      inserted in enumeration order, so for a repeated key the later index
      would win; the enumeration of a set never repeats a key. */
  function Cats(order: seq<Category>): (cats: map<Category, int>)
    ensures cats.Keys == Distinct(order)
    ensures forall c :: c in cats ==> 0 <= cats[c] < |order| && order[cats[c]] == c
    ensures forall c, j :: c in cats && cats[c] < j < |order| ==> order[j] != c
    decreases |order|
  {
    if order == [] then map[]
    else
      var n := |order| - 1;
      assert Distinct(order) == Distinct(order[..n]) + {order[n]} by {
        assert order == order[..n] + [order[n]];
      }
      Cats(order[..n])[order[n] := n]
  }

  /** Over a duplicate-free enumeration, the category at position i is
      sent to i. */
  lemma CatsAt(order: seq<Category>, i: int)
    requires NoDuplicates(order)
    requires 0 <= i < |order|
    ensures order[i] in Cats(order) && Cats(order)[order[i]] == i
  {
  }

  /** `cats` is a bijection from the column's distinct categories onto
      0 .. K-1: its keys are the categories, its values are exactly the
      indices below K, and no two categories share an index. */
  lemma {:induction false} CatsIsBijection(order: seq<Category>, column: seq<Category>)
    requires IsEnumerationOf(order, column)
    ensures Cats(order).Keys == Distinct(column)
    ensures Cats(order).Values == Range(CategoryCount(column))
    ensures |Cats(order)| == CategoryCount(column)
    ensures forall c, d :: c in Cats(order) && d in Cats(order) && Cats(order)[c] == Cats(order)[d] ==> c == d
  {
    var cats := Cats(order);
    EnumerationSize(order, column);
    forall v | v in Range(CategoryCount(column))
      ensures v in cats.Values
    {
      CatsAt(order, v);
    }
    assert |cats| == |cats.Keys|;
  }

  // ---------------------------------------------------------------------
  // labels = [cats[c] for c in column]
  // ---------------------------------------------------------------------

  /** The list comprehension: each row's category looked up in `cats`, in
      row order; the first category that is not a key raises KeyError. */
  function Labels(column: seq<Category>, cats: map<Category, int>): (r: Result<seq<int>>)
    ensures r.Ok? <==> forall i :: 0 <= i < |column| ==> column[i] in cats
    ensures r.Ok? ==> |r.value| == |column|
    ensures r.Ok? ==> forall i :: 0 <= i < |column| ==> r.value[i] == cats[column[i]]
    ensures r.Err? ==> exists k :: 0 <= k < |column| && r.error == KeyError(column[k])
                                   && column[k] !in cats
                                   && forall i :: 0 <= i < k ==> column[i] in cats
    decreases |column|
  {
    if column == [] then Ok([])
    else if column[0] !in cats then Err(KeyError(column[0]))
    else
      match Labels(column[1..], cats)
      case Ok(rest) => Ok([cats[column[0]]] + rest)
      case Err(e) =>
        ghost var k :| 0 <= k < |column[1..]| && e == KeyError(column[1..][k])
                       && column[1..][k] !in cats
                       && forall i :: 0 <= i < k ==> column[1..][i] in cats;
        assert column[k + 1] == column[1..][k];
        assert forall i :: 1 <= i < k + 1 ==> column[i] == column[1..][i - 1];
        Err(e)
  }

  /** With the real `cats`, every lookup succeeds and every label is the
      index of its row's category, which lies in [0, K). */
  lemma LabelsSucceed(order: seq<Category>, column: seq<Category>)
    requires IsEnumerationOf(order, column)
    ensures Labels(column, Cats(order)).Ok?
    ensures |Labels(column, Cats(order)).value| == |column|
    ensures forall i :: 0 <= i < |column| ==>
              var l := Labels(column, Cats(order)).value[i];
              0 <= l < CategoryCount(column) && order[l] == column[i]
  {
    EnumerationSize(order, column);
    forall i | 0 <= i < |column|
      ensures column[i] in Cats(order)
    {
      assert column[i] in Distinct(column);
    }
  }

  /** Two rows get the same label if and only if they have the same
      category. */
  lemma SameLabelIffSameCategory(order: seq<Category>, column: seq<Category>, i: int, j: int)
    requires IsEnumerationOf(order, column)
    requires 0 <= i < |column| && 0 <= j < |column|
    ensures Labels(column, Cats(order)).Ok?
    ensures Labels(column, Cats(order)).value[i] == Labels(column, Cats(order)).value[j]
            <==> column[i] == column[j]
  {
  }

  /** The set of label values is exactly 0 .. K-1: each index is used by
      some row. */
  lemma LabelValues(order: seq<Category>, column: seq<Category>)
    requires IsEnumerationOf(order, column)
    ensures Labels(column, Cats(order)).Ok?
    ensures (set i | 0 <= i < |column| :: Labels(column, Cats(order)).value[i])
            == Range(CategoryCount(column))
  {
    LabelsSucceed(order, column);
    EnumerationSize(order, column);
    var k := CategoryCount(column);
    var labels := Labels(column, Cats(order)).value;
    var used := set i | 0 <= i < |column| :: labels[i];
    forall v | v in used
      ensures v in Range(k)
    {
      var i :| 0 <= i < |column| && labels[i] == v;
      assert 0 <= labels[i] < k;
    }
    forall v | v in Range(k)
      ensures v in used
    {
      assert order[v] in Distinct(column);
      var i :| 0 <= i < |column| && column[i] == order[v];
      CatsAt(order, v);
      assert labels[i] == v;
    }
  }

  // ---------------------------------------------------------------------
  // data = data.add_column(name='labels', column=labels)
  // ---------------------------------------------------------------------

  /** The category column of a dataset. */
  function CategoryColumn(rows: seq<Row>): (column: seq<Category>)
    ensures |column| == |rows|
  {
    seq(|rows|, i requires 0 <= i < |rows| => rows[i].category)
  }

  /** The labels column of a dataset. */
  function LabelColumn(rows: seq<Row>): (labels: seq<int>)
    ensures |labels| == |rows|
  {
    seq(|rows|, i requires 0 <= i < |rows| => rows[i].labels)
  }

  /** Attaching a column: a new dataset whose i-th row pairs the i-th
      category with the i-th new value; the column must have one value per
      row. */
  function AddColumn(category: seq<Category>, labels: seq<int>): (r: Result<seq<Row>>)
    ensures r.Ok? <==> |labels| == |category|
    ensures r.Ok? ==> CategoryColumn(r.value) == category && LabelColumn(r.value) == labels
    ensures r.Err? ==> r.error == LengthMismatch(|category|, |labels|)
  {
    if |labels| != |category| then Err(LengthMismatch(|category|, |labels|))
    else Ok(seq(|category|, i requires 0 <= i < |category| => Row(category[i], labels[i])))
  }

  // ---------------------------------------------------------------------
  // The three lines together
  // ---------------------------------------------------------------------

  /** The labelled dataset the script ends with, for a given iteration
      order of the distinct-category set. */
  function Encode(column: seq<Category>, order: seq<Category>): (r: Result<seq<Row>>)
    ensures r.Ok? <==> forall i :: 0 <= i < |column| ==> column[i] in Cats(order)
    ensures r.Err? ==> r.error.KeyError? && r.error.key in column && r.error.key !in Cats(order)
    ensures r.Ok? ==> CategoryColumn(r.value) == column
                      && LabelColumn(r.value) == Labels(column, Cats(order)).value
  {
    match Labels(column, Cats(order))
    case Ok(labels) => AddColumn(column, labels)
    case Err(e) => Err(e)
  }

  /** For any enumeration of the distinct categories the script succeeds;
      the labelled dataset has the same rows in the same order with their
      categories untouched, and each row's label is its category's entry
      in `cats`, below K. */
  lemma EncodeKeepsRows(column: seq<Category>, order: seq<Category>)
    requires IsEnumerationOf(order, column)
    ensures Encode(column, order).Ok?
    ensures |Encode(column, order).value| == |column|
    ensures CategoryColumn(Encode(column, order).value) == column
    ensures forall i :: 0 <= i < |column| ==>
              var row := Encode(column, order).value[i];
              row.category == column[i] && column[i] in Cats(order)
              && row.labels == Cats(order)[column[i]] && 0 <= row.labels < CategoryCount(column)
  {
    LabelsSucceed(order, column);
    var rows := Encode(column, order).value;
    forall i | 0 <= i < |column|
      ensures rows[i].category == column[i] && rows[i].labels == Labels(column, Cats(order)).value[i]
    {
      assert CategoryColumn(rows)[i] == rows[i].category;
      assert LabelColumn(rows)[i] == rows[i].labels;
    }
  }

  /** An empty column has no categories to enumerate: `cats` is empty and
      so is the labelled dataset, and this is not an error. */
  lemma EmptyColumn(order: seq<Category>)
    requires IsEnumerationOf(order, [])
    ensures Cats(order) == map[]
    ensures Encode([], order) == Ok([])
  {
  }

  /** Rows a, b, a with a != b hold exactly two distinct categories. */
  lemma TwoCategories(column: seq<Category>)
    requires |column| == 3 && column[0] == column[2] && column[0] != column[1]
    ensures CategoryCount(column) == 2
  {
    assert Distinct(column) == {column[0], column[1]};
  }

  /** The three-row example, for any two different categories a and b in
      rows a, b, a (the categories x, y, x, say): K = 2, and whichever order
      the set is enumerated in, rows 1 and 3 share a label, row 2 has the
      other one, and both labels lie in [0, 2), so they are 0 and 1. */
  lemma ThreeRowExample(column: seq<Category>, order: seq<Category>)
    requires |column| == 3 && column[0] == column[2] && column[0] != column[1]
    requires IsEnumerationOf(order, column)
    ensures CategoryCount(column) == 2
    ensures Encode(column, order).Ok?
    ensures var rows := Encode(column, order).value;
            |rows| == 3 && rows[0].labels == rows[2].labels && rows[0].labels != rows[1].labels
            && 0 <= rows[0].labels < 2 && 0 <= rows[1].labels < 2
  {
    TwoCategories(column);
    EncodeKeepsRows(column, order);
    var rows := Encode(column, order).value;
    assert rows[0].labels != rows[1].labels by {
      assert column[0] in Distinct(column) && column[1] in Distinct(column);
    }
  }
}
