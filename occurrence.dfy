/**
 Building one `occurrenceItem` from one row of `details.items` and the
 parallel `details.itemHeaders` (lib/index.js:84-122).

 The specification functions walk the cells up to index `n`, in the order
 the loop does; `BuildOccurrence` is the loop itself.
 */
module Occurrences {
  import opened JsValues
  import opened Text

  /** `headers[y]` is an object: reading `.text` from it does not throw. */
  predicate HeaderPresent(headers: seq<Header>, y: nat) {
    y < |headers| && headers[y].Header?
  }

  /** The cell test of line 99: a `url`-typed cell with truthy text. */
  predicate IsUrlCell(c: Cell) {
    c.Cell? && c.kind == Some("url") && Truthy(c.text)
  }

  /** The TypeError the loop body throws at index `y`, if any: the cell is read first, then the header. */
  function CellFault(cells: seq<Cell>, headers: seq<Header>, y: nat): Option<RowFault>
    requires y < |cells|
  {
    if cells[y].MissingCell? then Some(NullCell(y))
    else if !HeaderPresent(headers, y) then Some(NoHeader(y))
    else None
  }

  /** The first fault among the cells before `n`. */
  function FirstFault(cells: seq<Cell>, headers: seq<Header>, n: nat): Option<RowFault>
    requires n <= |cells|
  {
    if n == 0 then None
    else if FirstFault(cells, headers, n - 1).Some? then FirstFault(cells, headers, n - 1)
    else CellFault(cells, headers, n - 1)
  }

  /** Cell `y` contributes a message fragment and an identifier: both texts are truthy. */
  predicate Keeps(cells: seq<Cell>, headers: seq<Header>, y: nat)
    requires y < |cells|
  {
    HeaderPresent(headers, y) && Truthy(headers[y].text) && cells[y].Cell? && Truthy(cells[y].text)
  }

  /** The indices below `n` of the cells that contribute, in increasing order. */
  function Kept(cells: seq<Cell>, headers: seq<Header>, n: nat): seq<nat>
    requires n <= |cells|
  {
    if n == 0 then []
    else Kept(cells, headers, n - 1) + (if Keeps(cells, headers, n - 1) then [n - 1] else [])
  }

  /** The `"<header>: $"` fragments pushed for the cells before `n`. */
  function Fragments(cells: seq<Cell>, headers: seq<Header>, n: nat): seq<string>
    requires n <= |cells|
  {
    if n == 0 then []
    else Fragments(cells, headers, n - 1)
         + (if Keeps(cells, headers, n - 1) then [headers[n - 1].text.value + ": $"] else [])
  }

  /** The identifiers pushed for the cells before `n`. */
  function Identifiers(cells: seq<Cell>, headers: seq<Header>, n: nat): seq<string>
    requires n <= |cells|
  {
    if n == 0 then []
    else Identifiers(cells, headers, n - 1)
         + (if Keeps(cells, headers, n - 1) then [cells[n - 1].text.value] else [])
  }

  /** The `url` left by the cells before `n`: the text of the last url cell. */
  function LastUrl(cells: seq<Cell>, n: nat): Option<string>
    requires n <= |cells|
  {
    if n == 0 then None
    else if IsUrlCell(cells[n - 1]) then cells[n - 1].text
    else LastUrl(cells, n - 1)
  }

  /** The occurrence built from an array row with cells, or the TypeError its cell loop throws. */
  function CellsOccurrence(cells: seq<Cell>, headers: seq<Header>): Result<Occurrence, RowFault> {
    var n := |cells|;
    match FirstFault(cells, headers, n)
    case Some(f) => Err(f)
    case None =>
      var url := LastUrl(cells, n);
      Ok(Occurrence(if url.Some? then Url else Text, url,
                    Join(Fragments(cells, headers, n), Separator),
                    Identifiers(cells, headers, n)))
  }

  /** The occurrence with no fragments: what a row without a truthy `length` yields. */
  const EmptyOccurrence := Occurrence(Text, None, "", [])

  /** The `occurrenceItem` built for `row`, or the TypeError thrown while building it. */
  function OccurrenceOf(row: Row, headers: seq<Header>): Result<Occurrence, RowFault> {
    match row
    case MissingRow => Err(NullRow)
    case Row(cells, _) =>
      if cells.None? || cells.value == [] then Ok(EmptyOccurrence)
      else CellsOccurrence(cells.value, headers)
  }

  /** Once a cell has thrown, later cells change nothing. */
  lemma {:induction false} FaultSticks(cells: seq<Cell>, headers: seq<Header>, n: nat, m: nat)
    requires n <= m <= |cells|
    requires FirstFault(cells, headers, n).Some?
    ensures FirstFault(cells, headers, m) == FirstFault(cells, headers, n)
    decreases m - n
  {
    if n < m {
      FaultSticks(cells, headers, n, m - 1);
    }
  }

  /**
   The row loop of lines 93-122: walks the cells beside the headers, sets
   `display`/`url` from url cells, pushes fragments and identifiers, and
   joins the fragments; a `null` row, a `null` cell or a missing header throws.
   */
  method BuildOccurrence(row: Row, headers: seq<Header>) returns (r: Result<Occurrence, RowFault>)
    ensures r == OccurrenceOf(row, headers)
  {
    if row.MissingRow? {
      return Err(NullRow);
    }
    var display := Text;
    var url: Option<string> := None;
    var fragments: seq<string> := [];
    var identifiers: seq<string> := [];
    if row.cells.Some? && |row.cells.value| > 0 {
      var cells := row.cells.value;
      var y := 0;
      while y < |cells|
        invariant y <= |cells|
        invariant FirstFault(cells, headers, y) == None
        invariant url == LastUrl(cells, y)
        invariant display == if url.Some? then Url else Text
        invariant fragments == Fragments(cells, headers, y)
        invariant identifiers == Identifiers(cells, headers, y)
      {
        var cell := cells[y];
        if cell.MissingCell? {
          FaultSticks(cells, headers, y + 1, |cells|);
          return Err(NullCell(y));
        }
        if cell.kind == Some("url") && Truthy(cell.text) {
          display := Url;
          url := cell.text;
        }
        if !HeaderPresent(headers, y) {
          FaultSticks(cells, headers, y + 1, |cells|);
          return Err(NoHeader(y));
        }
        if Truthy(headers[y].text) && Truthy(cell.text) {
          fragments := fragments + [headers[y].text.value + ": $"];
          identifiers := identifiers + [cell.text.value];
        }
        y := y + 1;
      }
    }
    r := Ok(Occurrence(display, url, Join(fragments, Separator), identifiers));
  }

  // ---- what the specification functions promise ----

  /**
   The row faults exactly when some cell is `null` or has no header, and
   the reported fault is the one at the first such index.
   */
  lemma {:induction false} FaultIsFirst(cells: seq<Cell>, headers: seq<Header>, n: nat)
    requires n <= |cells|
    ensures FirstFault(cells, headers, n) == None
            <==> forall y :: 0 <= y < n ==> CellFault(cells, headers, y) == None
    ensures FirstFault(cells, headers, n).Some? ==>
              var f := FirstFault(cells, headers, n).value;
              (f.NullCell? || f.NoHeader?) && f.cell < n && CellFault(cells, headers, f.cell) == Some(f)
              && forall z :: 0 <= z < f.cell ==> CellFault(cells, headers, z) == None
  {
    if n > 0 {
      FaultIsFirst(cells, headers, n - 1);
    }
  }

  /**
   Fragment k and identifier k come from the same cell `Kept[k]`: the
   fragment is that cell's header text followed by ": $", the identifier
   is that cell's text. `Kept` lists, in increasing order, exactly the
   cells whose header text and own text are both non-empty.
   */
  lemma {:induction false} FragmentsPairIdentifiers(cells: seq<Cell>, headers: seq<Header>, n: nat)
    requires n <= |cells|
    ensures var ks := Kept(cells, headers, n);
            |Fragments(cells, headers, n)| == |ks| && |Identifiers(cells, headers, n)| == |ks|
            && (forall k :: 0 <= k < |ks| ==>
                  ks[k] < n && Keeps(cells, headers, ks[k])
                  && Fragments(cells, headers, n)[k] == headers[ks[k]].text.value + ": $"
                  && Identifiers(cells, headers, n)[k] == cells[ks[k]].text.value)
            && (forall y :: 0 <= y < n ==> (y in ks <==> Keeps(cells, headers, y)))
            && (forall j, k :: 0 <= j < k < |ks| ==> ks[j] < ks[k])
  {
    if n > 0 {
      FragmentsPairIdentifiers(cells, headers, n - 1);
    }
  }

  /**
   `display` becomes `Url` exactly when some cell is a url cell with
   non-empty text, and `url` is then the text of the last such cell.
   */
  lemma {:induction false} UrlIsLastUrlCell(cells: seq<Cell>, n: nat)
    requires n <= |cells|
    ensures LastUrl(cells, n).Some? <==> exists y :: 0 <= y < n && IsUrlCell(cells[y])
    ensures LastUrl(cells, n).Some? ==>
              exists y :: 0 <= y < n && IsUrlCell(cells[y]) && LastUrl(cells, n) == cells[y].text
                          && forall z :: y < z < n ==> !IsUrlCell(cells[z])
  {
    if n > 0 {
      UrlIsLastUrlCell(cells, n - 1);
      if IsUrlCell(cells[n - 1]) {
        assert 0 <= n - 1 < n && IsUrlCell(cells[n - 1]);
      }
    }
  }

  /**
   The occurrence built from a row with cells: its message is the fragments
   joined with ", ", one per identifier; it is empty exactly when there are
   no identifiers, and when no header text contains ", " splitting the
   message on ", " gives back one fragment per identifier.
   */
  lemma MessageMatchesIdentifiers(cells: seq<Cell>, headers: seq<Header>)
    requires CellsOccurrence(cells, headers).Ok?
    ensures var o := CellsOccurrence(cells, headers).value;
            var frags := Fragments(cells, headers, |cells|);
            o.message == Join(frags, Separator) && |frags| == |o.identifiers|
            && (o.message == "" <==> o.identifiers == [])
    ensures (forall y :: 0 <= y < |headers| && headers[y].Header? && headers[y].text.Some?
               ==> Free(headers[y].text.value, Separator))
            ==> var o := CellsOccurrence(cells, headers).value;
                Split(o.message, Separator) == if o.identifiers == [] then [""] else Fragments(cells, headers, |cells|)
  {
    var n := |cells|;
    var frags := Fragments(cells, headers, n);
    FragmentsPairIdentifiers(cells, headers, n);
    if frags != [] {
      assert |frags[0]| > 0;
      JoinNonEmpty(frags);
    }
    if (forall y :: 0 <= y < |headers| && headers[y].Header? && headers[y].text.Some?
          ==> Free(headers[y].text.value, Separator)) {
      if frags == [] {
        assert Split("", Separator) == [""];
      } else {
        var ks := Kept(cells, headers, n);
        forall k | 0 <= k < |frags|
          ensures Free(frags[k], Separator)
        {
          FragmentFree(headers[ks[k]].text.value);
        }
        SplitJoin(frags);
      }
    }
  }

  /**
   Building a row throws exactly when the row is `null`, or when it is an
   array with a `null` cell or a cell at an index that has no header; a
   row without a truthy `length` never throws.
   */
  lemma OccurrenceFaults(row: Row, headers: seq<Header>)
    ensures OccurrenceOf(row, headers).Err? <==>
              row.MissingRow?
              || (row.cells.Some? && exists y :: 0 <= y < |row.cells.value| && CellFault(row.cells.value, headers, y).Some?)
  {
    if row.Row? && row.cells.Some? && row.cells.value != [] {
      FaultIsFirst(row.cells.value, headers, |row.cells.value|);
    }
  }

  /**
   The `display` and `url` of a built occurrence: `Url` exactly when some
   cell is a url cell with non-empty text, and then `url` is the text of
   the last such cell; otherwise `Text` with no `url`. A row without cells
   yields the empty occurrence.
   */
  lemma OccurrenceDisplay(row: Row, headers: seq<Header>)
    requires row.Row? && OccurrenceOf(row, headers).Ok?
    ensures var o := OccurrenceOf(row, headers).value;
            var cells := row.cells.GetOr([]);
            (o.display == Url <==> exists y :: 0 <= y < |cells| && IsUrlCell(cells[y]))
            && (o.display == Text ==> o.url == None)
            && (o.display == Url ==>
                  exists y :: 0 <= y < |cells| && IsUrlCell(cells[y]) && o.url == cells[y].text
                              && forall z :: y < z < |cells| ==> !IsUrlCell(cells[z]))
            && (cells == [] ==> o == EmptyOccurrence)
  {
    var cells := row.cells.GetOr([]);
    UrlIsLastUrlCell(cells, |cells|);
  }

  /** A join whose first part is non-empty is non-empty. */
  lemma JoinNonEmpty(parts: seq<string>)
    requires parts != [] && parts[0] != ""
    ensures Join(parts, Separator) != ""
  {
    if |parts| > 1 {
      assert Join(parts, Separator) == parts[0] + Separator + Join(parts[1..], Separator);
    }
  }

  /** Appending ": $" to a text without ", " creates no ", ". */
  lemma FragmentFree(h: string)
    requires Free(h, Separator)
    ensures Free(h + ": $", Separator)
  {
    var f := h + ": $";
    forall k | 0 <= k <= |f|
      ensures !OccursAt(f, Separator, k)
    {
      if k + 2 <= |h| {
        assert f[k..k + 2] == h[k..k + 2];
        assert !OccursAt(h, Separator, k);
      } else if k + 2 <= |f| {
        // the pair straddles or follows the end of `h`: it holds ':' or ' ' where ", " has ',' or ' '
        assert f[|h|] == ':' && f[|h| + 1] == ' ';
        if k + 1 == |h| {
          assert f[k..k + 2][1] == f[k + 1] == ':' != Separator[1];
        } else if k == |h| {
          assert f[k..k + 2][0] == f[k] == ':' != Separator[0];
        } else {
          assert f[k..k + 2][0] == f[k] == ' ' != Separator[0];
        }
      }
    }
  }
}
