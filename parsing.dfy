/**
 The character-at-a-time parsing contexts. Each context receives one
 character through `Accept`, updates its own fields and answers with what
 becomes active next: itself (`Stay`), a freshly opened child (`Pushed`), or
 its parent once it has folded its rendered text into the parent (`Popped`).
 */
module Parsing {
  import opened Text
  import opened MatrixRendering

  datatype Option<T> = None | Some(value: T)

  /** What `Accept` answers: the same context stays active, a child context
      was opened, or the finished child hands control back to its parent. */
  datatype Next = Stay | Pushed(child: MatrixContext) | Popped(parent: RootContext)

  const RowSizeError: string := "Inconsistent row size!"
  const BarIndexError: string := "Inconsistent matrix bar index!"

  /** The top-level context: copies text through, rewriting `*` and `;`,
      and opens a matrix on `[`. */
  class RootContext {
    var compiled: string
    var error: Option<string>

    constructor ()
      ensures compiled == [] && error == None
    {
      compiled := [];
      error := None;
    }

    /** Replaces the compiled text by the mutator's image of it and answers
        with this same context. */
    method Callback(mutator: string -> string) returns (self: RootContext)
      modifies this
      ensures self == this
      ensures compiled == mutator(old(compiled)) && error == old(error)
    {
      compiled := mutator(compiled);
      self := this;
    }

    /** `[` opens a matrix whose parent is this context and leaves the
        compiled text alone; every other character keeps this context active
        and extends the compiled text by its rendering. */
    method Accept(c: char) returns (next: Next)
      modifies this
      ensures error == old(error)
      ensures c == '[' ==>
        && next.Pushed? && fresh(next.child)
        && next.child.parent == this && next.child.IsInitial() && next.child.Valid()
        && compiled == old(compiled)
      ensures c != '[' ==> next == Stay
      ensures c == '*' ==> compiled == old(compiled) + "\\times"
      ensures c == ';' ==> compiled == old(compiled) + "\\\\\n"
      ensures c != '[' && c != '*' && c != ';' ==> compiled == old(compiled) + [c]
    {
      if c == '[' {
        var m := new MatrixContext(this);
        next := Pushed(m);
      } else {
        if c == '*' {
          compiled := compiled + "\\times";
        } else if c == ';' {
          compiled := compiled + "\\\\\n";
        } else {
          compiled := compiled + [c];
        }
        next := Stay;
      }
    }
  }

  /** A cell of a matrix never spans a line and carries no surrounding
      space. */
  predicate IsCell(s: string) {
    '\n' !in s && IsTrimmed(s)
  }

  /** Any single-line text, once trimmed, is a cell. */
  lemma TrimmedIsCell(s: string)
    requires '\n' !in s
    ensures IsCell(Trim(s))
  {
  }

  /** The rows of a matrix: there is always a current (last) row, every
      completed row is as long as the first, and every entry is a cell. */
  predicate WellFormedRows(rows: seq<seq<string>>) {
    && |rows| >= 1
    && (forall k :: 0 <= k < |rows| - 1 ==> |rows[k]| == |rows[0]|)
    && (forall i, j :: 0 <= i < |rows| && 0 <= j < |rows[i]| ==> IsCell(rows[i][j]))
  }

  /** Adding a cell to the current row keeps the rows well formed. */
  lemma PushCellWellFormed(rows: seq<seq<string>>, cell: string)
    requires WellFormedRows(rows) && IsCell(cell)
    ensures WellFormedRows(rows[|rows| - 1 := rows[|rows| - 1] + [cell]])
  {
  }

  /** Starting a new row after a current row as long as the first keeps the
      rows well formed. */
  lemma OpenRowWellFormed(rows: seq<seq<string>>)
    requires WellFormedRows(rows)
    requires |rows| == 1 || |rows[|rows| - 1]| == |rows[0]|
    ensures WellFormedRows(rows + [[]])
  {
  }

  /** An open matrix: the current cell's raw text, the rows seen so far and
      the column after which a bar was declared (-1 while none was). */
  class MatrixContext {
    var compiled: string
    var error: Option<string>
    const parent: RootContext
    var aggregate: string
    var rows: seq<seq<string>>
    var barIndex: int

    /** The state a matrix starts in. */
    predicate IsInitial()
      reads this
    {
      compiled == [] && error == None && aggregate == [] && rows == [[]] && barIndex == -1
    }

    /** What every reachable matrix state satisfies: there is always a
        current row; a declared bar sits after a column numbered from 1;
        every completed row is as long as the first; the open cell holds no
        newline and every stored cell is a trimmed single-line string; and
        an error, once there, is one of the two matrix errors. */
    predicate Valid()
      reads this
    {
      && WellFormedRows(rows)
      && (barIndex == -1 || barIndex >= 1)
      && '\n' !in aggregate
      && (error == None || error == Some(RowSizeError) || error == Some(BarIndexError))
    }

    constructor (parent: RootContext)
      ensures this.parent == parent && IsInitial() && Valid()
    {
      compiled := [];
      error := None;
      this.parent := parent;
      aggregate := [];
      rows := [[]];
      barIndex := -1;
    }

    /** Handles one character of the matrix body:
        - `]` adds the trimmed open cell to the last row when it is not
          blank, renders the matrix into `compiled`, appends that text to the
          parent's and hands control back to the parent; the last row's
          size is not checked;
        - a newline closes the last row with the trimmed open cell; a row
          other than the first whose size then differs from the first row's
          records "Inconsistent row size!" and stays open with the open cell
          kept, otherwise a new empty row starts and the open cell empties;
        - `,` closes the open cell into the last row;
        - `|` does the same, then the last row's size is the bar's column:
          it is recorded when no bar was declared yet, and a different
          column than the recorded one records "Inconsistent matrix bar
          index!";
        - any other character joins the open cell.
        An error already recorded does not stop processing and is never
        cleared. */
    method Accept(c: char) returns (next: Next)
      requires Valid()
      modifies this, parent
      ensures Valid()
      ensures old(error) != None ==> error != None
      ensures c == ']' ==>
        && rows == (if Trim(old(aggregate)) != []
                    then old(rows)[|old(rows)| - 1 := old(rows)[|old(rows)| - 1] + [Trim(old(aggregate))]]
                    else old(rows))
        && aggregate == old(aggregate) && barIndex == old(barIndex) && error == old(error)
        && compiled == Block(rows, barIndex)
        && parent.compiled == old(parent.compiled) + compiled
        && parent.error == old(parent.error)
        && next == Popped(parent)
      ensures c != ']' ==> next == Stay && compiled == old(compiled) && unchanged(parent)
      ensures c == '\n' ==>
        var last := |old(rows)| - 1;
        var closed := old(rows)[last] + [Trim(old(aggregate))];
        && barIndex == old(barIndex)
        && if last != 0 && |closed| != |old(rows)[0]| then
             && rows == old(rows)[last := closed]
             && aggregate == old(aggregate)
             && error == Some(RowSizeError)
           else
             && rows == old(rows)[last := closed] + [[]]
             && aggregate == []
             && error == old(error)
      ensures c == ',' ==>
        var last := |old(rows)| - 1;
        && rows == old(rows)[last := old(rows)[last] + [Trim(old(aggregate))]]
        && aggregate == [] && barIndex == old(barIndex) && error == old(error)
      ensures c == '|' ==>
        var last := |old(rows)| - 1;
        var index := |old(rows)[last]| + 1;
        && rows == old(rows)[last := old(rows)[last] + [Trim(old(aggregate))]]
        && aggregate == []
        && if old(barIndex) == -1 then
             barIndex == index && error == old(error)
           else
             && barIndex == old(barIndex)
             && error == (if index != old(barIndex) then Some(BarIndexError) else old(error))
      ensures c != ']' && c != '\n' && c != ',' && c != '|' ==>
        && aggregate == old(aggregate) + [c]
        && rows == old(rows) && barIndex == old(barIndex) && error == old(error)
    {
      if c == ']' {
        next := Finish();
      } else if c == '\n' {
        EndRow();
        next := Stay;
      } else if c == ',' {
        EndCell();
        next := Stay;
      } else if c == '|' {
        EndCell();
        DeclareBar();
        next := Stay;
      } else {
        aggregate := aggregate + [c];
        next := Stay;
      }
    }

    /** The `]` branch of `Accept`. */
    method Finish() returns (next: Next)
      requires Valid()
      modifies this, parent
      ensures Valid()
      ensures rows == (if Trim(old(aggregate)) != []
                       then old(rows)[|old(rows)| - 1 := old(rows)[|old(rows)| - 1] + [Trim(old(aggregate))]]
                       else old(rows))
      ensures aggregate == old(aggregate) && barIndex == old(barIndex) && error == old(error)
      ensures compiled == Block(rows, barIndex)
      ensures parent.compiled == old(parent.compiled) + compiled
      ensures parent.error == old(parent.error)
      ensures next == Popped(parent)
    {
      if Trim(aggregate) != [] {
        TrimmedIsCell(aggregate);
        PushCellWellFormed(rows, Trim(aggregate));
        rows := rows[|rows| - 1 := rows[|rows| - 1] + [Trim(aggregate)]];
      }
      compiled := RenderBlock(rows, barIndex);
      var block := compiled;
      var p := parent.Callback(s => s + block);
      next := Popped(p);
    }

    /** The newline branch of `Accept`. */
    method EndRow()
      requires Valid()
      modifies this
      ensures Valid()
      ensures compiled == old(compiled) && barIndex == old(barIndex)
      ensures var last := |old(rows)| - 1;
        var closed := old(rows)[last] + [Trim(old(aggregate))];
        if last != 0 && |closed| != |old(rows)[0]| then
          && rows == old(rows)[last := closed]
          && aggregate == old(aggregate)
          && error == Some(RowSizeError)
        else
          && rows == old(rows)[last := closed] + [[]]
          && aggregate == []
          && error == old(error)
    {
      TrimmedIsCell(aggregate);
      PushCellWellFormed(rows, Trim(aggregate));
      var row := |rows| - 1;
      rows := rows[row := rows[row] + [Trim(aggregate)]];
      if row != 0 && |rows[row]| != |rows[0]| {
        error := Some(RowSizeError);
      } else {
        OpenRowWellFormed(rows);
        rows := rows + [[]];
        aggregate := [];
      }
    }

    /** Closes the open cell into the last row (the `,` branch of `Accept`,
        and the first half of its `|` branch). */
    method EndCell()
      requires Valid()
      modifies this
      ensures Valid()
      ensures rows == old(rows)[|old(rows)| - 1 := old(rows)[|old(rows)| - 1] + [Trim(old(aggregate))]]
      ensures aggregate == []
      ensures compiled == old(compiled) && barIndex == old(barIndex) && error == old(error)
    {
      TrimmedIsCell(aggregate);
      PushCellWellFormed(rows, Trim(aggregate));
      rows := rows[|rows| - 1 := rows[|rows| - 1] + [Trim(aggregate)]];
      aggregate := [];
    }

    /** The second half of the `|` branch of `Accept`: the last row's size is
        the column of the bar just declared. */
    method DeclareBar()
      requires Valid() && |rows[|rows| - 1]| >= 1
      modifies this`barIndex, this`error
      ensures Valid()
      ensures var index := |rows[|rows| - 1]|;
        if old(barIndex) == -1 then
          barIndex == index && error == old(error)
        else
          && barIndex == old(barIndex)
          && error == (if index != old(barIndex) then Some(BarIndexError) else old(error))
    {
      var index := |rows[|rows| - 1]|;
      if barIndex != -1 {
        if index != barIndex {
          error := Some(BarIndexError);
        }
      } else {
        barIndex := index;
      }
    }
  }
}
