/** The pandas DataFrame that the feature extractor works on: a fixed number
    of time-ordered rows, and named columns kept in insertion order. */
module Frames {
  import opened Wrappers

  /** One cell: a number, a boolean, or pandas' undefined value (NaN). */
  datatype Cell = Num(v: real) | Flag(b: bool) | Missing

  /** `n` rows; `names` lists the columns in order; `cols` gives each column's cells. */
  datatype Frame = Frame(n: nat, names: seq<string>, cols: map<string, seq<Cell>>)

  /** No name occurs twice. */
  ghost predicate Distinct(s: seq<string>)
  {
    s == [] || (s[0] !in s[1..] && Distinct(s[1..]))
  }

  lemma {:induction false} DistinctAppend(s: seq<string>, x: string)
    requires Distinct(s) && x !in s
    ensures Distinct(s + [x])
  {
    if s != [] {
      assert (s + [x])[1..] == s[1..] + [x];
      DistinctAppend(s[1..], x);
    }
  }

  /** Every column is listed once, and every column has one cell per row. */
  ghost predicate Valid(f: Frame)
  {
    && Distinct(f.names)
    && (forall c :: c in f.cols <==> c in f.names)
    && (forall c :: c in f.cols ==> |f.cols[c]| == f.n)
  }

  /** `r` is `f` with columns possibly overwritten or appended: the row count,
      every column of `f` and the order of `f`'s columns survive. */
  ghost predicate Extends(f: Frame, r: Frame)
  {
    && Valid(r)
    && r.n == f.n
    && f.cols.Keys <= r.cols.Keys
    && |f.names| <= |r.names|
    && r.names[..|f.names|] == f.names
  }

  lemma ExtendsTransitive(f: Frame, g: Frame, h: Frame)
    requires Extends(f, g) && Extends(g, h)
    ensures Extends(f, h)
  {
    assert h.names[..|f.names|] == h.names[..|g.names|][..|f.names|];
  }

  /** `data[name] = col`: overwrite the column in place, or append it. */
  function Assign(f: Frame, name: string, col: seq<Cell>): (r: Frame)
    requires Valid(f) && |col| == f.n
    ensures Valid(r) && Extends(f, r)
    ensures r.cols == f.cols[name := col]
    ensures name in f.cols ==> r.names == f.names
  {
    if name in f.cols then Frame(f.n, f.names, f.cols[name := col])
    else
      DistinctAppend(f.names, name);
      Frame(f.n, f.names + [name], f.cols[name := col])
  }

  function Remove(names: seq<string>, x: string): (r: seq<string>)
    ensures forall c :: c in r <==> c in names && c != x
    ensures Distinct(names) ==> Distinct(r)
  {
    if names == [] then []
    else
      var rest := Remove(names[1..], x);
      if names[0] == x then rest else [names[0]] + rest
  }

  lemma {:induction false} RemoveKeepsPrefix(names: seq<string>, x: string, k: nat)
    requires k <= |names| && x !in names[..k]
    ensures k <= |Remove(names, x)| && Remove(names, x)[..k] == names[..k]
  {
    if k > 0 {
      assert names[0] == names[..k][0];
      assert names[1..][..k - 1] == names[..k][1..];
      RemoveKeepsPrefix(names[1..], x, k - 1);
    }
  }

  /** `data.drop(columns=name, inplace=True)` for a column that exists. */
  function Drop(f: Frame, name: string): (r: Frame)
    requires Valid(f)
    ensures Valid(r) && r.n == f.n
    ensures r.cols == f.cols - {name}
  {
    Frame(f.n, Remove(f.names, name), f.cols - {name})
  }

  /** Dropping a column that `base` did not have keeps `Extends(base, _)`. */
  lemma DropKeepsExtends(base: Frame, f: Frame, name: string)
    requires Valid(base) && Extends(base, f) && name !in base.cols
    ensures Extends(base, Drop(f, name))
  {
    assert name !in f.names[..|base.names|];
    RemoveKeepsPrefix(f.names, name, |base.names|);
  }

  /** The numeric value pandas uses for a cell in arithmetic; booleans count
      as 1 and 0, as `astype(float)` gives them. */
  function AsReal(c: Cell): Option<real>
  {
    match c
    case Num(v) => Some(v)
    case Flag(b) => Some(if b then 1.0 else 0.0)
    case Missing => None
  }

  /** A column read as numbers, with `None` where the cell is undefined. */
  function View(col: seq<Cell>): (xs: seq<Option<real>>)
    ensures |xs| == |col|
    ensures forall i :: 0 <= i < |col| ==> xs[i] == AsReal(col[i])
  {
    seq(|col|, i requires 0 <= i < |col| => AsReal(col[i]))
  }

  function ToCell(x: Option<real>): Cell
  {
    match x
    case Some(v) => Num(v)
    case None => Missing
  }

  /** A computed series stored back as a column; undefined values become NaN. */
  function ToCells(xs: seq<Option<real>>): (col: seq<Cell>)
    ensures |col| == |xs|
    ensures forall i :: 0 <= i < |xs| ==> col[i] == ToCell(xs[i])
  {
    seq(|xs|, i requires 0 <= i < |xs| => ToCell(xs[i]))
  }
}
