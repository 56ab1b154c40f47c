/** The board: the target word, six guess rows of which only the current one is
    enabled, the game outcome, the outcome modal, and the restart actions. */
module App {
  import opened WordBlocks

  /** The board always renders six rows. */
  const RowCount := 6

  /** The `disabled` prop of row i. */
  predicate Disabled(i: int, currentRow: int) {
    i != currentRow
  }

  /** The indices of the rendered rows whose inputs are enabled. */
  function EnabledRows(currentRow: int): set<int> {
    set i | 0 <= i < RowCount && !Disabled(i, currentRow)
  }

  /** While currentRow names a row, that row and no other is enabled; once it has moved
      past the last row, none is. */
  lemma ExactlyOneEnabled(currentRow: int)
    ensures 0 <= currentRow < RowCount ==> EnabledRows(currentRow) == {currentRow}
    ensures !(0 <= currentRow < RowCount) ==> EnabledRows(currentRow) == {}
  {
    if 0 <= currentRow < RowCount {
      assert currentRow in EnabledRows(currentRow);
    }
  }

  /** The loss rule tests the row index against the word length. With a five-letter word
      that index is the sixth and last row, so a missed sixth guess loses, and every
      earlier miss moves to the next row. */
  lemma FiveLetterWordLosesOnLastRow(countCorrect: nat, currentRow: int)
    requires countCorrect != 5 && 0 <= currentRow < RowCount
    ensures Decide(countCorrect, 5, currentRow) == Lost <==> currentRow == RowCount - 1
    ensures currentRow < RowCount - 1 ==> Decide(countCorrect, 5, currentRow) == Advance
  {
  }

  /** With a word of six letters or more no row index reaches the word length: a missed
      sixth guess advances currentRow to 6, which enables no row and declares no outcome. */
  lemma LongWordNeverLoses(countCorrect: nat, wordLength: nat, currentRow: int)
    requires wordLength >= RowCount && countCorrect != wordLength && 0 <= currentRow < RowCount
    ensures Decide(countCorrect, wordLength, currentRow) == Advance
    ensures currentRow == RowCount - 1 ==> EnabledRows(currentRow + 1) == {}
  {
    ExactlyOneEnabled(currentRow + 1);
  }

  /** With a word shorter than five letters a miss on row wordLength already loses,
      before all six rows have been used. */
  lemma ShortWordLosesEarly(countCorrect: nat, wordLength: nat)
    requires 0 < wordLength < RowCount - 1 && countCorrect != wordLength
    ensures Decide(countCorrect, wordLength, wordLength) == Lost
  {
  }

  /** Six freshly mounted rows of n empty cells each. */
  method MountRows(n: nat) returns (rs: seq<Row>, ghost objs: set<object>)
    requires n > 0
    ensures |rs| == RowCount && fresh(objs)
    ensures forall i :: 0 <= i < |rs| ==> rs[i] in objs && rs[i].cells in objs
    ensures forall i :: 0 <= i < |rs| ==> fresh(rs[i]) && fresh(rs[i].cells)
    ensures forall i :: 0 <= i < |rs| ==> rs[i].Valid() && rs[i].Pristine() && rs[i].cells.Length == n
    ensures forall i, j :: 0 <= i < j < |rs| ==> rs[i] != rs[j] && rs[i].cells != rs[j].cells
  {
    rs, objs := [], {};
    while |rs| < RowCount
      invariant |rs| <= RowCount && fresh(objs)
      invariant forall i :: 0 <= i < |rs| ==> rs[i] in objs && rs[i].cells in objs
      invariant forall i :: 0 <= i < |rs| ==> fresh(rs[i]) && fresh(rs[i].cells)
      invariant forall i :: 0 <= i < |rs| ==> rs[i].Valid() && rs[i].Pristine() && rs[i].cells.Length == n
      invariant forall i, j :: 0 <= i < j < |rs| ==> rs[i] != rs[j] && rs[i].cells != rs[j].cells
    {
      var r := new Row(n);
      rs, objs := rs + [r], objs + {r, r.cells};
    }
  }

  class Board {
    var word: seq<char>
    var currentRow: int
    /** gameStatus.won: None while no outcome has been recorded. */
    var won: Option<bool>
    var showModal: bool
    /** The mounted rows: none while the word is empty (the loading screen), six otherwise. */
    var rows: seq<Row>
    ghost var Repr: set<object>

    /** The board owns its rows and their cell arrays, no two of them shared. */
    ghost predicate RowsOwned()
      reads this, Repr
    {
      && this in Repr
      && (forall i :: 0 <= i < |rows| ==> rows[i] in Repr && rows[i].cells in Repr)
      && (forall i, j :: 0 <= i < j < |rows| ==> rows[i] != rows[j] && rows[i].cells != rows[j].cells)
    }

    /** The board invariant: rows exist exactly when a word does, there are six of them,
        each sized to the word and well formed; currentRow stays within 0..6; and every
        row after the current one is untouched. */
    ghost predicate Valid()
      reads this, Repr
    {
      && RowsOwned()
      && (word == [] <==> rows == [])
      && (rows != [] ==> |rows| == RowCount)
      && (forall i :: 0 <= i < |rows| ==> rows[i].Valid() && rows[i].cells.Length == |word|)
      && 0 <= currentRow <= RowCount
      && (forall i :: currentRow < i < |rows| ==> rows[i].Pristine())
    }

    /** Row i takes keystrokes: it is rendered, not disabled and not busy. */
    predicate AcceptsInput(i: int)
      reads this, rows
      ensures AcceptsInput(i) ==> i == currentRow && 0 <= i < |rows| && !rows[i].busy
    {
      0 <= i < |rows| && !Disabled(i, currentRow) && !rows[i].busy
    }

    /** The board before any word has arrived: the loading screen. */
    constructor ()
      ensures Valid() && fresh(Repr)
      ensures word == [] && rows == [] && currentRow == 0 && won == None && !showModal
    {
      word := [];
      currentRow := 0;
      won := None;
      showModal := false;
      rows := [];
      Repr := {this};
    }

    /** Resets every row to n empty cells; nothing else changes. */
    method ResetRows(n: nat)
      requires RowsOwned() && n > 0
      modifies Repr
      ensures RowsOwned() && old(Repr) <= Repr && fresh(Repr - old(Repr))
      ensures rows == old(rows) && word == old(word) && currentRow == old(currentRow)
      ensures won == old(won) && showModal == old(showModal)
      ensures forall i :: 0 <= i < |rows| ==> rows[i].Valid() && rows[i].Pristine() && rows[i].cells.Length == n
    {
      for k := 0 to |rows|
        invariant RowsOwned() && old(Repr) <= Repr && fresh(Repr - old(Repr))
        invariant rows == old(rows) && word == old(word) && currentRow == old(currentRow)
        invariant won == old(won) && showModal == old(showModal)
        invariant forall j :: 0 <= j < k ==> rows[j].Valid() && rows[j].Pristine() && rows[j].cells.Length == n
      {
        rows[k].Reset(n);
        Repr := Repr + {rows[k].cells};
      }
    }

    /** resetGame, which is also all that "Do it again" does: back to the first row, modal
        hidden, every row emptied and no longer busy. The outcome and the word stay. */
    method ResetGame()
      requires Valid()
      modifies Repr
      ensures Valid() && old(Repr) <= Repr && fresh(Repr - old(Repr))
      ensures currentRow == 0 && !showModal
      ensures word == old(word) && won == old(won) && rows == old(rows)
      ensures forall i :: 0 <= i < |rows| ==> rows[i].Pristine()
    {
      currentRow := 0;
      showModal := false;
      if rows != [] {
        ResetRows(|word|);
      }
    }

    /** Mounts six empty rows sized to w once the first non-empty word has arrived. */
    method Mount(w: seq<char>)
      requires Valid() && rows == [] && w != []
      modifies this
      ensures Valid() && old(Repr) <= Repr && fresh(Repr - old(Repr))
      ensures word == w && currentRow == old(currentRow) && won == old(won) && showModal == old(showModal)
      ensures |rows| == RowCount && forall i :: 0 <= i < RowCount ==> rows[i].Pristine()
    {
      var rs, objs := MountRows(|w|);
      rows, word := rs, w;
      Repr := Repr + objs;
    }

    /** A word arrives. An empty word unmounts the rows (the loading screen); the first
        non-empty word mounts six empty rows; a later word keeps the mounted rows and
        their state, except that rows sized for a word of another length are emptied
        and resized to the new one. */
    method SetWord(w: seq<char>)
      requires Valid()
      modifies Repr
      ensures Valid() && old(Repr) <= Repr && fresh(Repr - old(Repr))
      ensures word == w && currentRow == old(currentRow) && won == old(won) && showModal == old(showModal)
      ensures w == [] ==> rows == []
      ensures w != [] && old(rows) == [] ==>
        |rows| == RowCount && forall i :: 0 <= i < RowCount ==> rows[i].Pristine()
      ensures w != [] && old(rows) != [] && |w| == |old(word)| ==>
        rows == old(rows) && forall i :: 0 <= i < |rows| ==> unchanged(rows[i]) && unchanged(rows[i].cells)
      ensures w != [] && old(rows) != [] && |w| != |old(word)| ==>
        rows == old(rows) && forall i :: 0 <= i < |rows| ==> rows[i].Pristine()
    {
      if w == [] {
        rows, word := [], w;
      } else if rows == [] {
        Mount(w);
      } else if |w| != |word| {
        ResetRows(|w|);
        word := w;
      } else {
        word := w;
      }
    }

    /** The word arrival as the source has it: mounted rows keep the length they were
        given at mount or at the last reset, whatever the new word's length. */
    method SetWordAsWritten(w: seq<char>)
      requires Valid()
      modifies Repr
      ensures word == w && currentRow == old(currentRow) && won == old(won) && showModal == old(showModal)
      ensures w == [] ==> rows == [] && Valid()
      ensures w != [] && old(rows) == [] ==>
        Valid() && |rows| == RowCount && forall i :: 0 <= i < RowCount ==> rows[i].Pristine()
      ensures w != [] && old(rows) != [] ==>
        rows == old(rows) && forall i :: 0 <= i < |rows| ==> unchanged(rows[i]) && unchanged(rows[i].cells)
      ensures w != [] && old(rows) != [] && |w| != |old(word)| ==> !Valid()
    {
      if w == [] {
        rows := [];
      } else if rows == [] {
        Mount(w);
      } else {
        assert rows[0].cells.Length == |word|;
      }
      word := w;
    }

    /** "New Word": resetGame, then the fetched word w replaces the target. */
    method NewWord(w: seq<char>)
      requires Valid()
      modifies Repr
      ensures Valid() && old(Repr) <= Repr && fresh(Repr - old(Repr))
      ensures word == w && currentRow == 0 && !showModal && won == old(won)
      ensures w == [] ==> rows == []
      ensures w != [] ==> |rows| == RowCount
      ensures forall i :: 0 <= i < |rows| ==> rows[i].Pristine()
    {
      ResetGame();
      SetWord(w);
    }

    /** A letter typed into row i: handled by the row only when it accepts input;
        every other row is left alone. */
    method Type(i: int, value: string)
      requires Valid()
      modifies Repr
      ensures Valid() && Repr == old(Repr)
      ensures rows == old(rows) && word == old(word) && currentRow == old(currentRow)
      ensures won == old(won) && showModal == old(showModal)
      ensures forall j :: 0 <= j < |rows| ==> unchanged(rows[j])
      ensures forall j :: 0 <= j < |rows| && (j != i || !old(AcceptsInput(i))) ==> unchanged(rows[j].cells)
      ensures old(AcceptsInput(i)) ==> rows[i].cells[..] == AfterInput(old(rows[i].cells[..]), value)
    {
      if AcceptsInput(i) {
        rows[i].Input(value);
      }
    }

    /** Backspace in row i: handled by the row only when it accepts input. */
    method Backspace(i: int)
      requires Valid()
      modifies Repr
      ensures Valid() && Repr == old(Repr)
      ensures rows == old(rows) && word == old(word) && currentRow == old(currentRow)
      ensures won == old(won) && showModal == old(showModal)
      ensures forall j :: 0 <= j < |rows| ==> unchanged(rows[j])
      ensures forall j :: 0 <= j < |rows| && (j != i || !old(AcceptsInput(i))) ==> unchanged(rows[j].cells)
      ensures old(AcceptsInput(i)) ==> rows[i].cells[..] == AfterDelete(old(rows[i].cells[..]))
    {
      if AcceptsInput(i) {
        rows[i].Delete();
      }
    }

    /** The check of row i, which accepts input; the board's own fields stay as they are. */
    method CheckRow(i: int) returns (outcome: Outcome)
      requires Valid() && AcceptsInput(i)
      modifies rows[i], rows[i].cells
      ensures Valid()
      ensures !old(HasEmpty(rows[i].cells[..])) ==> rows[i].busy
      ensures old(HasEmpty(rows[i].cells[..])) ==>
        outcome == NotChecked && unchanged(rows[i]) && unchanged(rows[i].cells)
      ensures !old(HasEmpty(rows[i].cells[..])) ==>
        && (forall k :: 0 <= k < |word| ==> rows[i].cells[k] == Resolved(old(rows[i].cells[k]), word, k))
        && (outcome == Won <==> SpellsWord(old(rows[i].cells[..]), word))
        && (outcome == Lost <==> !SpellsWord(old(rows[i].cells[..]), word) && currentRow == |word|)
        && (outcome == Advance <==> !SpellsWord(old(rows[i].cells[..]), word) && currentRow != |word|)
    {
      var row := rows[i];
      outcome := row.Check(word, currentRow);
      assert forall j :: 0 <= j < |rows| && j != i ==> rows[j] != row && rows[j].cells != row.cells;
    }

    /** The board's reaction to a check's outcome: setGameStatus and setShowModal on a
        win or a loss, setCurrentRow on an advance. */
    method Record(outcome: Outcome)
      requires Valid() && currentRow < |rows|
      modifies this`won, this`showModal, this`currentRow
      ensures Valid()
      ensures outcome == Won ==> won == Some(true) && showModal && currentRow == old(currentRow)
      ensures outcome == Lost ==> won == Some(false) && showModal && currentRow == old(currentRow)
      ensures outcome == Advance ==>
        currentRow == old(currentRow) + 1 && won == old(won) && showModal == old(showModal)
      ensures outcome == NotChecked ==>
        currentRow == old(currentRow) && won == old(won) && showModal == old(showModal)
    {
      match outcome {
        case Won =>
          won := Some(true);
          showModal := true;
        case Lost =>
          won := Some(false);
          showModal := true;
        case Advance =>
          currentRow := currentRow + 1;
        case NotChecked =>
      }
    }

    /** Enter in row i: when the row accepts input it is checked, and the board applies
        the result: a win or a loss records the outcome and shows the modal, an advance
        moves to the next row. A decided game leaves no row accepting input. */
    method Enter(i: int) returns (outcome: Outcome)
      requires Valid()
      modifies Repr
      ensures Valid() && Repr == old(Repr)
      ensures rows == old(rows) && word == old(word)
      ensures forall j :: 0 <= j < |rows| && j != i ==> unchanged(rows[j]) && unchanged(rows[j].cells)
      ensures !old(AcceptsInput(i)) ==> outcome == NotChecked
      ensures old(AcceptsInput(i)) && old(HasEmpty(rows[i].cells[..])) ==> outcome == NotChecked
      ensures outcome == NotChecked ==>
        currentRow == old(currentRow) && won == old(won) && showModal == old(showModal)
        && forall j :: 0 <= j < |rows| ==> unchanged(rows[j]) && unchanged(rows[j].cells)
      ensures old(AcceptsInput(i)) && !old(HasEmpty(rows[i].cells[..])) ==>
        && rows[i].busy
        && (forall k :: 0 <= k < |word| ==> rows[i].cells[k] == Resolved(old(rows[i].cells[k]), word, k))
        && (outcome == Won <==> SpellsWord(old(rows[i].cells[..]), word))
        && (outcome == Lost <==> !SpellsWord(old(rows[i].cells[..]), word) && old(currentRow) == |word|)
        && (outcome == Advance <==> !SpellsWord(old(rows[i].cells[..]), word) && old(currentRow) != |word|)
      ensures outcome == Won ==> won == Some(true) && showModal && currentRow == old(currentRow)
      ensures outcome == Lost ==> won == Some(false) && showModal && currentRow == old(currentRow)
      ensures outcome == Advance ==>
        currentRow == old(currentRow) + 1 && won == old(won) && showModal == old(showModal)
      ensures outcome == Won || outcome == Lost ==> forall j :: !AcceptsInput(j)
    {
      outcome := NotChecked;
      if AcceptsInput(i) {
        outcome := CheckRow(i);
        Record(outcome);
      }
    }
  }

  /** A five-letter game followed by "New Word" with a three-letter word, as the source
      runs it: the rows keep five cells, so the board no longer matches its word. */
  method OtherLengthWordKeepsStaleRows() returns (b: Board)
    ensures b.word == "CAT" && |b.rows| == RowCount && b.rows[0].cells.Length == 5
    ensures !b.Valid()
  {
    b := new Board();
    b.SetWord("CRANE");
    b.ResetGame();
    b.SetWordAsWritten("CAT");
  }
}
