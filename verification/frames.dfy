/**
 * The roster as the script holds it in a pandas DataFrame: a number of rows and a map
 * from column name to that column's cells. A cell is a string or missing (NaN).
 */
module Frames {
  import opened Wrappers

  /** A cell: `Some(text)`, or `None` for a pandas NaN. */
  type Cell = Option<string>

  datatype Frame = Frame(height: nat, columns: map<string, seq<Cell>>) {
    /** Every column has one cell per row. */
    predicate Valid() {
      forall c :: c in columns ==> |columns[c]| == height
    }
  }

  /** The column `df[k] = ''` creates: the empty string in every row. */
  function Blank(n: nat): (col: seq<Cell>)
    ensures |col| == n
    ensures forall i :: 0 <= i < n ==> col[i] == Some("")
  {
    seq(n, _ => Some(""))
  }

  /**
   * `for k in keys: if k not in df.columns: df[k] = ''`: every key becomes a column,
   * columns that existed are left alone and new ones hold `''` in every row.
   */
  function AddMissingColumns(f: Frame, keys: set<string>): (g: Frame)
    requires f.Valid()
    ensures g.Valid() && g.height == f.height
    ensures g.columns.Keys == f.columns.Keys + keys
    ensures forall c :: c in f.columns ==> g.columns[c] == f.columns[c]
    ensures forall c, i :: c in g.columns && c !in f.columns && 0 <= i < g.height ==> g.columns[c][i] == Some("")
  {
    Frame(f.height, map c | c in f.columns.Keys + keys :: if c in f.columns then f.columns[c] else Blank(f.height))
  }

  /**
   * `assignvalues(df, inx, datadict)`: every key of the scraped mapping becomes a column
   * and its cell in row `inx` is overwritten with the new value; nothing else changes,
   * and a column created here is `''` in every other row.
   */
  function Assign(f: Frame, inx: nat, d: map<string, Cell>): (g: Frame)
    requires f.Valid() && inx < f.height
    ensures g.Valid() && g.height == f.height
    ensures g.columns.Keys == f.columns.Keys + d.Keys
    ensures forall c :: c in d ==> g.columns[c][inx] == d[c]
    ensures forall c :: c in f.columns && c !in d ==> g.columns[c] == f.columns[c]
    ensures forall c, i :: c in f.columns && 0 <= i < g.height && i != inx ==> g.columns[c][i] == f.columns[c][i]
    ensures forall c, i :: c in g.columns && c !in f.columns && 0 <= i < g.height && i != inx ==> g.columns[c][i] == Some("")
  {
    var wide := AddMissingColumns(f, d.Keys);
    Frame(f.height, map c | c in wide.columns :: if c in d then wide.columns[c][inx := d[c]] else wide.columns[c])
  }

  /** Two frames of the same shape with the same cells are the same frame. */
  lemma {:induction false} FrameExt(f: Frame, g: Frame)
    requires f.Valid() && g.Valid() && f.height == g.height
    requires f.columns.Keys == g.columns.Keys
    requires forall c, i :: c in f.columns && 0 <= i < f.height ==> f.columns[c][i] == g.columns[c][i]
    ensures f == g
  {
    forall c | c in f.columns
      ensures f.columns[c] == g.columns[c]
    {
      assert |f.columns[c]| == |g.columns[c]|;
    }
  }

  /** Merging the same mapping into the same row twice is the same as merging it once. */
  lemma {:induction false} AssignIdempotent(f: Frame, inx: nat, d: map<string, Cell>)
    requires f.Valid() && inx < f.height
    ensures Assign(Assign(f, inx, d), inx, d) == Assign(f, inx, d)
  {
    var once := Assign(f, inx, d);
    FrameExt(Assign(once, inx, d), once);
  }

  /** One cell of the last-write-wins argument. */
  lemma LastWriteCell(f: Frame, inx: nat, d1: map<string, Cell>, d2: map<string, Cell>, c: string, i: nat)
    requires f.Valid() && inx < f.height && i < f.height
    requires c in f.columns || c in d1 || c in d2
    ensures Assign(Assign(f, inx, d1), inx, d2).columns[c][i] == Assign(f, inx, d1 + d2).columns[c][i]
  {
    var g1 := Assign(f, inx, d1);
    var g2 := Assign(g1, inx, d2);
    var h := Assign(f, inx, d1 + d2);
    if i == inx {
      if c in d2 {
        assert g2.columns[c][i] == d2[c] == (d1 + d2)[c];
      } else if c in d1 {
        assert g2.columns[c] == g1.columns[c];
        assert g1.columns[c][i] == d1[c] == (d1 + d2)[c];
      } else {
        assert g2.columns[c] == g1.columns[c] == f.columns[c] == h.columns[c];
      }
    } else if c in f.columns {
      assert g2.columns[c][i] == g1.columns[c][i] == f.columns[c][i] == h.columns[c][i];
    } else if c in g1.columns {
      assert g2.columns[c][i] == g1.columns[c][i] == Some("") == h.columns[c][i];
    } else {
      assert g2.columns[c][i] == Some("") == h.columns[c][i];
    }
  }

  /**
   * Last write wins: merging `d1` and then `d2` into one row is merging their union,
   * where `d2`'s values override `d1`'s.
   */
  lemma {:induction false} AssignLastWriteWins(f: Frame, inx: nat, d1: map<string, Cell>, d2: map<string, Cell>)
    requires f.Valid() && inx < f.height
    ensures Assign(Assign(f, inx, d1), inx, d2) == Assign(f, inx, d1 + d2)
  {
    var g2 := Assign(Assign(f, inx, d1), inx, d2);
    var h := Assign(f, inx, d1 + d2);
    assert g2.columns.Keys == h.columns.Keys by {
      assert (d1 + d2).Keys == d1.Keys + d2.Keys;
    }
    forall c, i | c in g2.columns && 0 <= i < g2.height
      ensures g2.columns[c][i] == h.columns[c][i]
    {
      LastWriteCell(f, inx, d1, d2, c, i);
    }
    FrameExt(g2, h);
  }

  /** Once every key has been created up front, a merge creates no further column. */
  lemma AssignAfterPreCreate(f: Frame, keys: set<string>, inx: nat, d: map<string, Cell>)
    requires f.Valid() && inx < f.height
    requires d.Keys <= keys
    ensures Assign(AddMissingColumns(f, keys), inx, d).columns.Keys == AddMissingColumns(f, keys).columns.Keys
  {
  }

  /** Creating columns twice is creating them once. */
  lemma AddMissingColumnsIdempotent(f: Frame, keys: set<string>)
    requires f.Valid()
    ensures AddMissingColumns(AddMissingColumns(f, keys), keys) == AddMissingColumns(f, keys)
  {
  }
}
