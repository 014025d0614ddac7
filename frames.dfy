/** What the filing client uses of a data frame: a table of rows with a
    row index, `pd.concat` of several tables, and resetting the index to
    `range(n)`.  Column mechanics are kept out; a row is whatever record
    the caller chooses. */
module Frames {
  import opened Results

  /** A frame: its row labels and its rows, in order. */
  datatype Table<R> = Table(index: seq<int>, rows: seq<R>)

  /** `range(n)` as a sequence. */
  function Range(n: nat): (r: seq<int>)
    ensures |r| == n && forall i :: 0 <= i < n ==> r[i] == i
  {
    seq(n, i => i)
  }

  /** A frame freshly read from one page: labelled 0 .. n-1. */
  function FromRows<R>(rows: seq<R>): Table<R>
  {
    Table(Range(|rows|), rows)
  }

  /** The rows of all the parts, part after part. */
  function Flatten<T>(parts: seq<seq<T>>): seq<T>
  {
    if parts == [] then [] else parts[0] + Flatten(parts[1..])
  }

  /** Total number of elements of the parts. */
  function TotalLength<T>(parts: seq<seq<T>>): nat
  {
    if parts == [] then 0 else |parts[0]| + TotalLength(parts[1..])
  }

  /** Number of elements in the parts before part `p`. */
  function Before<T>(parts: seq<seq<T>>, p: nat): nat
    requires p <= |parts|
  {
    TotalLength(parts[..p])
  }

  lemma {:induction false} FlattenLength<T>(parts: seq<seq<T>>)
    ensures |Flatten(parts)| == TotalLength(parts)
  {
    if parts != [] {
      FlattenLength(parts[1..]);
    }
  }

  lemma BeforeStep<T>(parts: seq<seq<T>>, p: nat)
    requires 0 < p <= |parts|
    ensures Before(parts, p) == |parts[0]| + Before(parts[1..], p - 1)
  {
    assert parts[..p][1..] == parts[1..][..p - 1];
  }

  /** Element `j` of part `p` sits at position `Before(parts, p) + j`
      of the flattened sequence: parts keep their order, and so do the
      elements within each part. */
  lemma {:induction false} FlattenAt<T>(parts: seq<seq<T>>, p: nat, j: nat)
    requires p < |parts| && j < |parts[p]|
    ensures Before(parts, p) + j < |Flatten(parts)|
    ensures Flatten(parts)[Before(parts, p) + j] == parts[p][j]
  {
    FlattenLength(parts);
    if p == 0 {
      assert parts[..0] == [];
    } else {
      BeforeStep(parts, p);
      FlattenAt(parts[1..], p - 1, j);
    }
  }

  /** Conversely every position of the flattened sequence comes from
      exactly such a part and offset. */
  lemma {:induction false} FlattenLocate<T>(parts: seq<seq<T>>, k: nat) returns (p: nat, j: nat)
    requires k < |Flatten(parts)|
    ensures p < |parts| && j < |parts[p]| && k == Before(parts, p) + j
    ensures Flatten(parts)[k] == parts[p][j]
  {
    if k < |parts[0]| {
      p, j := 0, k;
      assert parts[..0] == [];
    } else {
      var q, i := FlattenLocate(parts[1..], k - |parts[0]|);
      p, j := q + 1, i;
      BeforeStep(parts, p);
    }
  }

  /** Parts of equal sizes have equal offsets. */
  lemma {:induction false} BeforeSameShape<A, B>(a: seq<seq<A>>, b: seq<seq<B>>, p: nat)
    requires |a| == |b| && forall i :: 0 <= i < |a| ==> |a[i]| == |b[i]|
    requires p <= |a|
    ensures Before(a, p) == Before(b, p)
  {
    if p > 0 {
      BeforeStep(a, p);
      BeforeStep(b, p);
      BeforeSameShape(a[1..], b[1..], p - 1);
    }
  }

  /** `pd.concat(tables)`: rows and labels of all tables, table after table.
      The labels are kept, so they restart at 0 with every table. */
  function Concat<R>(tables: seq<Table<R>>): Table<R>
  {
    Table(Flatten(seq(|tables|, p requires 0 <= p < |tables| => tables[p].index)),
          Flatten(seq(|tables|, p requires 0 <= p < |tables| => tables[p].rows)))
  }

  /** `pd.concat` of one freshly read table per page. */
  function ConcatRows<R>(pages: seq<seq<R>>): Table<R>
  {
    Concat(seq(|pages|, q requires 0 <= q < |pages| => FromRows(pages[q])))
  }

  /** The rows of the concatenation are the page rows, page after page. */
  lemma ConcatRowsFlat<R>(pages: seq<seq<R>>)
    ensures ConcatRows(pages).rows == Flatten(pages)
    ensures |ConcatRows(pages).rows| == TotalLength(pages)
  {
    var tables := seq(|pages|, q requires 0 <= q < |pages| => FromRows(pages[q]));
    assert seq(|tables|, q requires 0 <= q < |tables| => tables[q].rows) == pages;
    FlattenLength(pages);
  }

  /** Concatenating freshly read tables: the row count is the sum of the
      per-table row counts, row `j` of table `p` lands at position
      `Before(pages, p) + j`, and there it keeps its old label `j`. */
  lemma ConcatPages<R>(pages: seq<seq<R>>, p: nat, j: nat)
    requires p < |pages| && j < |pages[p]|
    ensures var t := ConcatRows(pages);
      && |t.rows| == TotalLength(pages)
      && Before(pages, p) + j < |t.rows|
      && t.rows[Before(pages, p) + j] == pages[p][j]
      && |t.index| == |t.rows|
      && t.index[Before(pages, p) + j] == j
  {
    var tables := seq(|pages|, q requires 0 <= q < |pages| => FromRows(pages[q]));
    var labels := seq(|tables|, q requires 0 <= q < |tables| => tables[q].index);
    ConcatRowsFlat(pages);
    FlattenLength(labels);
    BeforeSameShape(labels, pages, |pages|);
    assert labels[..|pages|] == labels && pages[..|pages|] == pages;
    FlattenAt(pages, p, j);
    BeforeSameShape(labels, pages, p);
    FlattenAt(labels, p, j);
  }

  /** `frame.index = range(frame.shape[0])`. */
  function Reindex<R>(t: Table<R>): (r: Table<R>)
    ensures r.rows == t.rows
    ensures |r.index| == |r.rows| && forall i :: 0 <= i < |r.index| ==> r.index[i] == i
  {
    t.(index := Range(|t.rows|))
  }

  /** `column.apply(f)` for an `f` that may raise: the results in row
      order, or the error of the first row on which `f` fails. */
  function Apply<T, U, E>(f: T -> Result<U, E>, xs: seq<T>): (r: Result<seq<U>, E>)
    ensures r.Success? ==> |r.value| == |xs|
  {
    if xs == [] then Success([])
    else
      match f(xs[0])
      case Failure(e) => Failure(e)
      case Success(a) =>
        match Apply(f, xs[1..])
        case Failure(e) => Failure(e)
        case Success(rest) => Success([a] + rest)
  }

  /** The column is computed exactly when `f` succeeds on every row, and
      then it holds `f`'s result for each row. */
  lemma {:induction false} ApplyOk<T, U, E>(f: T -> Result<U, E>, xs: seq<T>)
    ensures Apply(f, xs).Success? <==> forall i :: 0 <= i < |xs| ==> f(xs[i]).Success?
    ensures Apply(f, xs).Success? ==> forall i :: 0 <= i < |xs| ==> f(xs[i]) == Success(Apply(f, xs).value[i])
  {
    if xs != [] {
      ApplyOk(f, xs[1..]);
      assert forall i :: 1 <= i < |xs| ==> xs[i] == xs[1..][i - 1];
    }
  }

  /** Otherwise the error is that of the first row on which `f` fails. */
  lemma {:induction false} ApplyErr<T, U, E>(f: T -> Result<U, E>, xs: seq<T>) returns (i: nat)
    requires Apply(f, xs).Failure?
    ensures i < |xs| && f(xs[i]) == Failure(Apply(f, xs).error)
    ensures forall k :: 0 <= k < i ==> f(xs[k]).Success?
  {
    if f(xs[0]).Failure? {
      i := 0;
    } else {
      var j := ApplyErr(f, xs[1..]);
      i := j + 1;
      assert forall k :: 1 <= k <= j ==> xs[k] == xs[1..][k - 1];
    }
  }
}
