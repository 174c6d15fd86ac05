/** The page-selector resolver (`parse_rango_paginas`): turns `"all"`, `"3"`, `"1,3,5"`,
    `"2-6"` or any comma-separated mixture into an ascending list of zero-based page
    indices within `[0, total)`. Out-of-range pages are dropped silently; a piece whose
    bounds are not integers makes `int()` raise, modelled as `Err(piece)`. */
module Pages {
  import opened Wrappers
  import opened Strings

  /** `paginas_str.strip().lower() == "all"`. */
  predicate IsAll(sel: string) {
    Lower(Strip(sel)) == "all"
  }

  /** What one comma-separated piece names, in 1-based page numbers. */
  datatype Piece = Single(page: int) | Range(lo: int, hi: int)

  /** Reads one piece: after stripping it, a piece holding a hyphen is cut at its first
      hyphen into two integers, anything else must be one integer. */
  function ReadPiece(piece: string): Result<Piece, string> {
    var p := Strip(piece);
    if '-' in p then
      var i := IndexOf(p, '-');
      var lo, hi := ParseInt(p[..i]), ParseInt(p[i + 1..]);
      if lo.Some? && hi.Some? then Ok(Range(lo.value, hi.value)) else Err(p)
    else
      var n := ParseInt(p);
      if n.Some? then Ok(Single(n.value)) else Err(p)
  }

  /** The zero-based indices a piece contributes: page `p` gives `p - 1` when `1 <= p <= total`. */
  function Indices(pc: Piece, total: nat): set<nat> {
    match pc
    case Single(n) => if 1 <= n <= total then {(n - 1) as nat} else {}
    case Range(lo, hi) => Span(lo, hi, total)
  }

  /** The zero-based indices below `total` of the pages `lo..hi`. */
  function Span(lo: int, hi: int, total: nat): set<nat> {
    set i: nat | i < total && Listed(lo, hi, i)
  }

  /** Every zero-based index below `total`. */
  function AllPages(total: nat): (r: set<nat>)
    ensures forall i: nat :: i in r <==> i < total
  {
    if total == 0 then {} else AllPages(total - 1) + {total - 1}
  }

  /** Page `i + 1` lies in `lo..hi`. */
  predicate Listed(lo: int, hi: int, i: nat) {
    lo <= i + 1 <= hi
  }

  /** Union of two selections; the first failure wins, as the first `int()` that raises does. */
  function Union(a: Result<set<nat>, string>, b: Result<set<nat>, string>): Result<set<nat>, string> {
    match a
    case Err(e) => Err(e)
    case Ok(s) => match b case Err(e) => Err(e) case Ok(t) => Ok(s + t)
  }

  /** The indices a list of pieces selects, or the first piece that does not read. */
  function PiecesSelection(pieces: seq<string>, total: nat): (r: Result<set<nat>, string>)
    ensures r.Ok? ==> forall i :: i in r.value ==> i < total
  {
    if pieces == [] then Ok({})
    else
      match ReadPiece(pieces[0])
      case Err(e) => Err(e)
      case Ok(pc) => Union(Ok(Indices(pc, total)), PiecesSelection(pieces[1..], total))
  }

  /** The specification of the resolver as a set: every page for "all", otherwise the union
      over the comma-separated pieces. Always a subset of `[0, total)`. */
  function Selection(sel: string, total: nat): (r: Result<set<nat>, string>)
    ensures r.Ok? ==> forall i :: i in r.value ==> i < total
  {
    if IsAll(sel) then Ok(AllPages(total)) else PiecesSelection(Split(sel, ','), total)
  }

  predicate StrictlyIncreasing(s: seq<nat>) {
    forall i, j :: 0 <= i < j < |s| ==> s[i] < s[j]
  }

  /** `parse_rango_paginas`: fills a set piece by piece, then returns it sorted. The result
      is the selection, ascending and duplicate-free; "all" gives exactly `0, ..., total - 1`. */
  method ParsePageRange(sel: string, total: nat) returns (r: Result<seq<nat>, string>)
    ensures Selection(sel, total).Err? ==> r == Err(Selection(sel, total).error)
    ensures Selection(sel, total).Ok? ==>
      && r.Ok? && StrictlyIncreasing(r.value)
      && forall i :: i in r.value <==> i in Selection(sel, total).value
    ensures IsAll(sel) ==> r == Ok(seq(total, i requires 0 <= i => i as nat))
  {
    if IsAll(sel) {
      var all := seq(total, i requires 0 <= i => i as nat);
      AllPagesInOrder(total);
      return Ok(all);
    }
    var collected := CollectPieces(Split(sel, ','), total);
    if collected.Err? {
      return Err(collected.error);
    }
    var sorted := Sorted(collected.value, total);
    return Ok(sorted);
  }

  /** `list(range(total))` lists exactly the indices of `AllPages(total)`, ascending. */
  lemma AllPagesInOrder(total: nat)
    ensures StrictlyIncreasing(seq(total, i requires 0 <= i => i as nat))
    ensures forall i :: i in seq(total, i requires 0 <= i => i as nat) <==> i in AllPages(total)
  {
    var all := seq(total, i requires 0 <= i => i as nat);
    forall i ensures i in all <==> i in AllPages(total) {
      if 0 <= i < total { assert all[i] == i; }
    }
  }

  /** The loop over the comma-separated pieces: reads each piece in turn and adds its
      indices, stopping at the first piece that does not read. */
  method CollectPieces(pieces: seq<string>, total: nat) returns (r: Result<set<nat>, string>)
    ensures r == PiecesSelection(pieces, total)
  {
    var indices: set<nat> := {};
    var k := 0;
    assert pieces[k..] == pieces;
    UnionEmpty(PiecesSelection(pieces, total));
    while k < |pieces|
      invariant 0 <= k <= |pieces|
      invariant PiecesSelection(pieces, total) == Union(Ok(indices), PiecesSelection(pieces[k..], total))
    {
      var read := ReadPiece(pieces[k]);
      SelectionStep(pieces, k, total);
      if read.Err? {
        return Err(read.error);
      }
      ghost var before := indices;
      indices := AddPiece(indices, read.value, total);
      UnionAssoc(before, Indices(read.value, total), PiecesSelection(pieces[k + 1..], total));
      k := k + 1;
    }
    assert pieces[k..] == [];
    assert indices + {} == indices;
    return Ok(indices);
  }

  /** One step of the resolver's loop: the selection of `ps[k..]` is that of piece `k`
      together with the selection of the rest. */
  lemma SelectionStep(ps: seq<string>, k: nat, total: nat)
    requires k < |ps|
    ensures ReadPiece(ps[k]).Err? ==> PiecesSelection(ps[k..], total) == Err(ReadPiece(ps[k]).error)
    ensures ReadPiece(ps[k]).Ok? ==>
      PiecesSelection(ps[k..], total) == Union(Ok(Indices(ReadPiece(ps[k]).value, total)), PiecesSelection(ps[k + 1..], total))
  {
    assert ps[k..][0] == ps[k];
    assert ps[k..][1..] == ps[k + 1..];
  }

  lemma UnionEmpty(a: Result<set<nat>, string>)
    ensures Union(Ok({}), a) == a
  {
    if a.Ok? { assert {} + a.value == a.value; }
  }

  lemma UnionAssoc(s: set<nat>, t: set<nat>, c: Result<set<nat>, string>)
    ensures Union(Ok(s), Union(Ok(t), c)) == Union(Ok(s + t), c)
  {
    if c.Ok? { assert s + (t + c.value) == (s + t) + c.value; }
  }

  /** Adds the indices of one piece to the set, a range page by page
      (`for p in range(ini, fin + 1)`). */
  method AddPiece(indices: set<nat>, pc: Piece, total: nat) returns (out: set<nat>)
    ensures out == indices + Indices(pc, total)
  {
    out := indices;
    match pc
    case Single(n) =>
      if 1 <= n <= total {
        out := out + {(n - 1) as nat};
      }
    case Range(lo, hi) =>
      var p := lo;
      while p <= hi
        invariant lo <= p && (p <= hi + 1 || p == lo)
        invariant out == indices + Span(lo, p - 1, total)
        decreases hi - p
      {
        if 1 <= p <= total {
          out := out + {(p - 1) as nat};
        }
        p := p + 1;
      }
  }

  /** `sorted(indices)` for a set of indices below `total`. */
  method Sorted(indices: set<nat>, total: nat) returns (sorted: seq<nat>)
    requires forall x :: x in indices ==> x < total
    ensures StrictlyIncreasing(sorted)
    ensures forall x :: x in sorted <==> x in indices
  {
    sorted := [];
    var i := 0;
    while i < total
      invariant 0 <= i <= total
      invariant StrictlyIncreasing(sorted)
      invariant forall j :: 0 <= j < |sorted| ==> sorted[j] < i
      invariant forall x :: x in sorted <==> x in indices && x < i
    {
      if i in indices {
        sorted := sorted + [i];
      }
      i := i + 1;
    }
  }

  /** A comma list selects the union of what its parts select (the first failing part is
      the error), so pieces of a selector can be resolved independently. */
  lemma {:induction false} PiecesSelectionAppend(ps: seq<string>, qs: seq<string>, total: nat)
    ensures PiecesSelection(ps + qs, total) == Union(PiecesSelection(ps, total), PiecesSelection(qs, total))
  {
    if ps == [] {
      assert ps + qs == qs;
      match PiecesSelection(qs, total)
      case Err(e) =>
      case Ok(t) => assert {} + t == t;
    } else {
      assert (ps + qs)[1..] == ps[1..] + qs;
      PiecesSelectionAppend(ps[1..], qs, total);
      match ReadPiece(ps[0])
      case Err(e) =>
      case Ok(pc) =>
        match PiecesSelection(ps[1..], total)
        case Err(e) =>
        case Ok(s) =>
          match PiecesSelection(qs, total)
          case Err(e) =>
          case Ok(t) => assert Indices(pc, total) + (s + t) == (Indices(pc, total) + s) + t;
    }
  }

  /** A selector holding a comma is never "all". */
  lemma CommaIsNotAll(s: string, k: nat)
    requires k < |s| && s[k] == ','
    ensures !IsAll(s)
  {
    ForeignCharIsNotAll(s, k);
  }

  /** A selector holding a character that is neither whitespace nor a letter of "all"
      (a digit, a comma, a hyphen) is not "all". */
  lemma ForeignCharIsNotAll(s: string, k: nat)
    requires k < |s| && !IsSpace(s[k]) && s[k] !in "aAlL"
    ensures !IsAll(s)
  {
    StripKeeps(s, k);
    var j :| 0 <= j < |Strip(s)| && Strip(s)[j] == s[k];
    assert Lower(Strip(s))[j] == LowerAscii(s[k]);
  }

  /** `a,b` selects what `a` selects together with what `b` selects. */
  lemma SelectionUnion(a: string, b: string, total: nat)
    requires !IsAll(a) && !IsAll(b)
    ensures Selection(a + "," + b, total) == Union(Selection(a, total), Selection(b, total))
  {
    CommaIsNotAll(a + "," + b, |a|);
    SplitAppend(a, ',', b);
    PiecesSelectionAppend(Split(a, ','), Split(b, ','), total);
  }

  /** A selector with no comma that is not "all" is one piece. */
  lemma OnePiece(s: string, total: nat)
    requires ',' !in s && !IsAll(s)
    ensures ReadPiece(s).Err? ==> Selection(s, total) == Err(ReadPiece(s).error)
    ensures ReadPiece(s).Ok? ==> Selection(s, total) == Ok(Indices(ReadPiece(s).value, total))
  {
    SplitNoSeparator(s, ',');
    assert [s][1..] == [];
    assert PiecesSelection([], total) == Ok({});
    match ReadPiece(s)
    case Err(e) =>
      assert PiecesSelection([s], total) == Err(e);
    case Ok(pc) =>
      assert Indices(pc, total) + {} == Indices(pc, total);
      assert PiecesSelection([s], total) == Ok(Indices(pc, total));
  }

  /** `"a-b"` reads as the range `a..b`. */
  lemma ReadRange(a: nat, b: nat)
    ensures ReadPiece(DigitsOf(a) + "-" + DigitsOf(b)) == Ok(Range(a, b))
  {
    var da, db := DigitsOf(a), DigitsOf(b);
    var s := da + "-" + db;
    StripUnchanged(s);
    DigitsExclude(da, '-');
    IndexOfAfter(da, '-', db);
    assert s[..|da|] == da;
    assert s[|da| + 1..] == db;
    ParseIntRoundTrip(a);
    ParseIntRoundTrip(b);
  }

  /** The piece `a-b` for page numbers `a` and `b` selects `p - 1` exactly for the pages
      `a <= p <= b` with `1 <= p <= total`. */
  lemma RangeSelects(a: nat, b: nat, total: nat)
    ensures Selection(DigitsOf(a) + "-" + DigitsOf(b), total) == Ok(Span(a, b, total))
  {
    var da, db := DigitsOf(a), DigitsOf(b);
    var s := da + "-" + db;
    ReadRange(a, b);
    assert s[|da|] == '-';
    ForeignCharIsNotAll(s, |da|);
    DigitsExclude(da, ',');
    DigitsExclude(db, ',');
    OnePiece(s, total);
  }

  /** A reversed range such as `"5-2"` selects nothing (`range(5, 3)` is empty). */
  lemma ReversedRangeSelectsNothing(a: nat, b: nat, total: nat)
    requires a > b
    ensures Selection(DigitsOf(a) + "-" + DigitsOf(b), total) == Ok({})
  {
    RangeSelects(a, b, total);
    var none := Span(a, b, total);
    assert forall i: nat :: i !in none;
    assert none == {};
  }

  /** A lone page number `n` selects `n - 1` when `1 <= n <= total` and nothing otherwise. */
  lemma SingleSelects(n: nat, total: nat)
    ensures Selection(DigitsOf(n), total) == Ok(if 1 <= n <= total then {(n - 1) as nat} else {})
  {
    var s := DigitsOf(n);
    StripUnchanged(s);
    ParseIntRoundTrip(n);
    assert '-' !in s && ',' !in s by {
      forall k | 0 <= k < |s| ensures s[k] != '-' && s[k] != ',' { assert IsDigit(s[k]); }
    }
    assert ReadPiece(s) == Ok(Single(n));
    assert IsDigit(s[0]);
    ForeignCharIsNotAll(s, 0);
    OnePiece(s, total);
  }

  /** A trailing comma leaves an empty piece (`"1,"`), an upper bound may be missing
      (`"5-"`), a piece may not be a number (`"x"`): `int()` raises, so the selector is an error. */
  lemma MalformedSelectorsRaise(a: string, n: nat, total: nat)
    requires !IsAll(a)
    ensures Selection(a + ",", total).Err?
    ensures Selection(DigitsOf(n) + "-", total).Err?
    ensures Selection("x", total).Err?
  {
    TrailingCommaRaises(a, total);
    UpperBoundMissingRaises(n, total);
    NotANumberRaises(total);
  }

  lemma NotANumberRaises(total: nat)
    ensures Selection("x", total).Err?
  {
    assert ReadPiece("x").Err?;
    assert !IsAll("x");
    OnePiece("x", total);
  }

  lemma TrailingCommaRaises(a: string, total: nat)
    requires !IsAll(a)
    ensures Selection(a + ",", total).Err?
  {
    assert a + "," == a + "," + "";
    assert Strip("") == "";
    assert !IsAll("");
    SelectionUnion(a, "", total);
    OnePiece("", total);
  }

  lemma UpperBoundMissingRaises(n: nat, total: nat)
    ensures Selection(DigitsOf(n) + "-", total).Err?
  {
    var d := DigitsOf(n);
    var s := d + "-";
    StripUnchanged(s);
    DigitsExclude(d, '-');
    DigitsExclude(d, ',');
    IndexOfAfter(d, '-', "");
    assert d + "-" + "" == s;
    assert s[|d| + 1..] == "";
    assert Strip("") == "";
    assert ReadPiece(s).Err?;
    assert s[|d|] == '-';
    ForeignCharIsNotAll(s, |d|);
    OnePiece(s, total);
  }

  /** An ascending list without duplicates is determined by its elements: the sorted result
      is the only one `parse_rango_paginas` could return. */
  lemma {:induction false} SortedUnique(a: seq<nat>, b: seq<nat>)
    requires StrictlyIncreasing(a) && StrictlyIncreasing(b)
    requires forall i :: i in a <==> i in b
    ensures a == b
  {
    if a == [] {
      if b != [] {
        HeadIn(b);
        assert false;
      }
    } else {
      assert a[0] in a;
      assert b != [];
      assert b[0] in b;
      assert a[0] == b[0] by {
        var k :| 0 <= k < |b| && b[k] == a[0];
        var m :| 0 <= m < |a| && a[m] == b[0];
      }
      var a', b' := a[1..], b[1..];
      forall i ensures i in a' <==> i in b' {
        if i in a' {
          var k :| 0 <= k < |a'| && a'[k] == i;
          assert a[k + 1] == i && a[0] < i;
          assert i in a && i in b;
          var m :| 0 <= m < |b| && b[m] == i;
          assert m != 0 && b'[m - 1] == i;
        }
        if i in b' {
          var k :| 0 <= k < |b'| && b'[k] == i;
          assert b[k + 1] == i && b[0] < i;
          assert i in b && i in a;
          var m :| 0 <= m < |a| && a[m] == i;
          assert m != 0 && a'[m - 1] == i;
        }
      }
      SortedUnique(a', b');
    }
  }

  lemma HeadIn(s: seq<nat>)
    requires s != []
    ensures s[0] in s
  {
  }
}
