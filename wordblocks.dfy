/** One guess row of the word game: its letter cells, the keystroke handlers that
    fill and clear them, and the left-to-right evaluation of a completed guess. */
module WordBlocks {

  datatype Option<T> = None | Some(value: T)

  /** The feedback a cell can carry. Idle belongs to the cell type but no handler assigns it. */
  datatype Status = Correct | Present | Absent | Idle

  /** One letter box: its letter ("" while empty), its feedback (absent until checked)
      and whether its flip animation is running. An absent animating flag reads as false. */
  datatype Cell = Cell(value: string, status: Option<Status>, animating: bool)

  /** What a Check reports to the board. */
  datatype Outcome = NotChecked | Won | Lost | Advance

  const EmptyCell := Cell("", None, false)

  // ---------------------------------------------------------------------------
  // Letters

  predicate IsLetter(c: char) {
    'a' <= c <= 'z' || 'A' <= c <= 'Z'
  }

  /** The keystroke filter: exactly one ASCII letter. */
  predicate IsAsciiLetter(value: string) {
    |value| == 1 && IsLetter(value[0])
  }

  predicate IsUpperLetter(c: char) {
    'A' <= c <= 'Z'
  }

  /** toUpperCase on an ASCII letter. */
  function Upper(c: char): (u: char)
    requires IsLetter(c)
    ensures IsUpperLetter(u)
    ensures IsUpperLetter(c) ==> u == c
    ensures !IsUpperLetter(c) ==> u as int == c as int - 32
  {
    if 'a' <= c <= 'z' then (c as int - 32) as char else c
  }

  /** What a cell may hold: nothing, or one upper-case letter. */
  predicate IsCellValue(v: string) {
    v == "" || (|v| == 1 && IsUpperLetter(v[0]))
  }

  // ---------------------------------------------------------------------------
  // Empty cells

  predicate HasEmpty(s: seq<Cell>) {
    exists i :: 0 <= i < |s| && s[i].value == ""
  }

  /** k is the lowest index whose cell is empty. */
  predicate LowestEmpty(s: seq<Cell>, k: int) {
    0 <= k < |s| && s[k].value == "" && forall j :: 0 <= j < k ==> s[j].value != ""
  }

  /** findIndex of the first empty cell, -1 when every cell is filled. */
  function FirstEmpty(s: seq<Cell>): (k: int)
    ensures -1 <= k < |s|
    ensures k == -1 <==> !HasEmpty(s)
    ensures k != -1 ==> LowestEmpty(s, k)
  {
    if |s| == 0 then -1
    else if s[0].value == "" then 0
    else
      var k := FirstEmpty(s[1..]);
      if k == -1 then -1 else k + 1
  }

  /** Filled cells come first, empty cells after them. */
  predicate FilledPrefix(s: seq<Cell>) {
    forall i, j :: 0 <= i < j < |s| && s[j].value != "" ==> s[i].value != ""
  }

  // ---------------------------------------------------------------------------
  // Row contents after a keystroke (specifications of Row.Input and Row.Delete)

  /** The cells after the letter-input handler receives value. */
  function AfterInput(s: seq<Cell>, value: string): (r: seq<Cell>)
    ensures |r| == |s|
    ensures !HasEmpty(s) || !IsAsciiLetter(value) ==> r == s
    ensures HasEmpty(s) && IsAsciiLetter(value) ==>
      forall k :: LowestEmpty(s, k) ==> r == s[k := s[k].(value := [Upper(value[0])])]
  {
    if !HasEmpty(s) then s
    else if !IsAsciiLetter(value) then s
    else
      var k := FirstEmpty(s);
      s[k := s[k].(value := [Upper(value[0])])]
  }

  /** The cells after the delete handler runs. */
  function AfterDelete(s: seq<Cell>): (r: seq<Cell>)
    requires |s| > 0
    ensures |r| == |s|
    ensures !HasEmpty(s) ==> r == s[|s| - 1 := s[|s| - 1].(value := "")]
    ensures forall k :: LowestEmpty(s, k) && k > 0 ==> r == s[k - 1 := s[k - 1].(value := "")]
    ensures s[0].value == "" ==> r == s
  {
    var k := FirstEmpty(s);
    if k == -1 then s[|s| - 1 := s[|s| - 1].(value := "")]
    else if k != 0 then s[k - 1 := s[k - 1].(value := "")]
    else s
  }

  // ---------------------------------------------------------------------------
  // Evaluation (specification of Row.Check)

  /** The target contains letter (a one-letter string) at some position. */
  predicate Includes(word: seq<char>, letter: string) {
    exists j :: 0 <= j < |word| && [word[j]] == letter
  }

  /** The status the cell at position i receives for letter. */
  function Evaluate(letter: string, word: seq<char>, i: nat): (st: Status)
    requires i < |word|
    ensures st != Idle
    ensures st == Correct <==> letter == [word[i]]
    ensures st == Present <==> letter != [word[i]] && Includes(word, letter)
    ensures st == Absent <==> !Includes(word, letter)
  {
    if letter == [word[i]] then Correct
    else if |letter| == 1 && letter[0] in word then
      assert Includes(word, letter) by {
        var j :| 0 <= j < |word| && word[j] == letter[0];
        assert [word[j]] == letter;
      }
      Present
    else
      assert !Includes(word, letter) by {
        forall j | 0 <= j < |word| ensures [word[j]] != letter {
          assert [word[j]][0] == word[j];
        }
      }
      Absent
  }

  /** The cell at position i after the evaluation pass has resolved it. */
  function Resolved(c: Cell, word: seq<char>, i: nat): Cell
    requires i < |word|
  {
    c.(status := Some(Evaluate(c.value, word, i)), animating := false)
  }

  /** The guess in s spells the target, letter for letter. */
  predicate SpellsWord(s: seq<Cell>, word: seq<char>)
    requires |s| == |word|
  {
    forall i :: 0 <= i < |s| ==> s[i].value == [word[i]]
  }

  /** Number of cells whose status is Correct. */
  function CountCorrect(s: seq<Cell>): nat
  {
    if s == [] then 0
    else CountCorrect(s[..|s| - 1]) + (if s[|s| - 1].status == Some(Correct) then 1 else 0)
  }

  /** The count of Correct cells never exceeds the row length. */
  lemma {:induction false} CountCorrectBound(s: seq<Cell>)
    ensures CountCorrect(s) <= |s|
  {
    if s != [] {
      CountCorrectBound(s[..|s| - 1]);
    }
  }

  lemma {:induction false} CountCorrectAll(s: seq<Cell>)
    ensures CountCorrect(s) == |s| <==> forall i :: 0 <= i < |s| ==> s[i].status == Some(Correct)
  {
    if s != [] {
      var t := s[..|s| - 1];
      CountCorrectAll(t);
      CountCorrectBound(t);
      assert forall i :: 0 <= i < |t| ==> t[i] == s[i];
    }
  }

  /** The outcome rule applied after the pass. The loss test compares the row index
      with the word length, not with the number of rows. */
  function Decide(countCorrect: nat, wordLength: nat, currentRow: int): (r: Outcome)
    ensures r != NotChecked
    ensures r == Won <==> countCorrect == wordLength
    ensures r == Lost <==> countCorrect != wordLength && currentRow == wordLength
    ensures r == Advance <==> countCorrect != wordLength && currentRow != wordLength
  {
    if countCorrect == wordLength then Won
    else if currentRow == wordLength then Lost
    else Advance
  }

  /** The statuses a guess receives against a target of the same length. */
  function Statuses(guess: string, word: seq<char>): seq<Status>
    requires |guess| == |word|
  {
    seq(|word|, i requires 0 <= i < |word| => Evaluate([guess[i]], word, i))
  }

  /** The letters of a full row, one per cell. */
  function Letters(s: seq<Cell>): string
    requires forall i :: 0 <= i < |s| ==> |s[i].value| == 1
  {
    seq(|s|, i requires 0 <= i < |s| => s[i].value[0])
  }

  /** The feedback a row shows, cell by cell. */
  function Feedback(s: seq<Cell>): seq<Option<Status>>
  {
    seq(|s|, i requires 0 <= i < |s| => s[i].status)
  }

  /** A full row after the evaluation pass shows, cell by cell, exactly the statuses
      its letters earn against the target. */
  lemma CheckedRowFeedback(guess: seq<Cell>, r: seq<Cell>, word: seq<char>)
    requires |guess| == |r| == |word|
    requires forall i :: 0 <= i < |guess| ==> |guess[i].value| == 1
    requires forall i :: 0 <= i < |r| ==> r[i] == Resolved(guess[i], word, i)
    ensures |Feedback(r)| == |Statuses(Letters(guess), word)|
    ensures forall i :: 0 <= i < |r| ==> Feedback(r)[i] == Some(Statuses(Letters(guess), word)[i])
  {
    forall i | 0 <= i < |r|
      ensures Feedback(r)[i] == Some(Statuses(Letters(guess), word)[i])
    {
      assert [Letters(guess)[i]] == guess[i].value;
    }
  }

  /** A row holding CRATE, checked against CRANE: only the T misses, so the row is
      not a win. */
  lemma CrateAgainstCrane(guess: seq<Cell>, r: seq<Cell>)
    requires |guess| == |r| == 5
    requires forall i :: 0 <= i < 5 ==> guess[i].value == ["CRATE"[i]]
    requires forall i :: 0 <= i < 5 ==> r[i] == Resolved(guess[i], "CRANE", i)
    ensures Feedback(r) == [Some(Correct), Some(Correct), Some(Correct), Some(Absent), Some(Correct)]
  {
    CheckedRowFeedback(guess, r, "CRANE");
    assert Letters(guess) == "CRATE";
    assert !Includes("CRANE", "T");
  }

  /** A row holding EERIE, checked against CRANE: every E shows as present or correct
      although CRANE holds one E, so repeated letters are not rationed. */
  lemma RepeatedLettersNotRationed(guess: seq<Cell>, r: seq<Cell>)
    requires |guess| == |r| == 5
    requires forall i :: 0 <= i < 5 ==> guess[i].value == ["EERIE"[i]]
    requires forall i :: 0 <= i < 5 ==> r[i] == Resolved(guess[i], "CRANE", i)
    ensures Feedback(r) == [Some(Present), Some(Present), Some(Present), Some(Absent), Some(Correct)]
  {
    CheckedRowFeedback(guess, r, "CRANE");
    assert Letters(guess) == "EERIE";
    assert [("CRANE")[4]] == "E";
    assert [("CRANE")[1]] == "R";
    assert !Includes("CRANE", "I");
  }

  // ---------------------------------------------------------------------------
  // Properties of the keystroke specifications

  lemma EmptyRowFilledPrefix(n: nat)
    ensures FilledPrefix(seq(n, _ => EmptyCell))
  {
  }

  lemma InputKeepsFilledPrefix(s: seq<Cell>, value: string)
    requires FilledPrefix(s)
    ensures FilledPrefix(AfterInput(s, value))
  {
    if HasEmpty(s) && IsAsciiLetter(value) {
      var k := FirstEmpty(s);
      var r := AfterInput(s, value);
      forall i, j | 0 <= i < j < |r| && r[j].value != ""
        ensures r[i].value != ""
      {
        if j != k {
          assert s[j].value != "";
        }
      }
    }
  }

  lemma DeleteKeepsFilledPrefix(s: seq<Cell>)
    requires |s| > 0 && FilledPrefix(s)
    ensures FilledPrefix(AfterDelete(s))
  {
    var r := AfterDelete(s);
    var k := FirstEmpty(s);
    forall i, j | 0 <= i < j < |r| && r[j].value != ""
      ensures r[i].value != ""
    {
      if k == -1 {
        assert s[i].value != "";
      } else if k != 0 {
        assert s[k].value == "";
      }
    }
  }

  /** Delete undoes an accepted keystroke: on a filled-prefix row with room left, typing a
      letter and then deleting gives back the row as it was. */
  lemma InputThenDeleteRestores(s: seq<Cell>, value: string)
    requires FilledPrefix(s) && HasEmpty(s) && IsAsciiLetter(value)
    ensures AfterDelete(AfterInput(s, value)) == s
  {
    var k := FirstEmpty(s);
    var r := AfterInput(s, value);
    if k + 1 < |s| {
      assert s[k + 1].value == "";
      assert LowestEmpty(r, k + 1);
    } else {
      assert !HasEmpty(r);
    }
  }

  /** k is the highest index whose cell is filled. */
  predicate LastFilled(s: seq<Cell>, k: int) {
    0 <= k < |s| && s[k].value != "" && forall j :: k < j < |s| ==> s[j].value == ""
  }

  /** On a well-formed row, delete clears the last filled cell, and does nothing on an
      all-empty row. */
  lemma DeleteClearsLastFilled(s: seq<Cell>)
    requires |s| > 0 && FilledPrefix(s)
    ensures forall k :: LastFilled(s, k) ==> AfterDelete(s) == s[k := s[k].(value := "")]
    ensures (forall i :: 0 <= i < |s| ==> s[i].value == "") ==> AfterDelete(s) == s
  {
    forall k | LastFilled(s, k)
      ensures AfterDelete(s) == s[k := s[k].(value := "")]
    {
      if k == |s| - 1 {
        assert s[k].value != "";
      } else {
        assert LowestEmpty(s, k + 1);
      }
    }
  }

  /** A filled-prefix row is empty exactly when its first cell is empty. */
  lemma EmptyHeadMeansEmptyRow(s: seq<Cell>)
    requires |s| > 0 && FilledPrefix(s)
    ensures s[0].value == "" <==> forall i :: 0 <= i < |s| ==> s[i].value == ""
  {
  }

  // ---------------------------------------------------------------------------
  // The row component

  class Row {
    var cells: array<Cell>
    var busy: bool

    /** The row invariant: at least one cell, filled cells before empty ones, upper-case
        letters only, and no feedback shown until a check has made the row busy. */
    ghost predicate Valid()
      reads this, cells
    {
      && cells.Length > 0
      && FilledPrefix(cells[..])
      && (forall i :: 0 <= i < cells.Length ==> IsCellValue(cells[i].value))
      && (!busy ==> forall i :: 0 <= i < cells.Length ==> cells[i].status == None && !cells[i].animating)
    }

    /** An untouched row: every cell empty without feedback, and not busy. */
    ghost predicate Pristine()
      reads this, cells
    {
      !busy && forall i :: 0 <= i < cells.Length ==> cells[i] == EmptyCell
    }

    /** A row of n empty cells for an n-letter target. */
    constructor (n: nat)
      requires n > 0
      ensures Valid() && Pristine() && fresh(cells)
      ensures cells.Length == n
    {
      cells := new Cell[n](_ => EmptyCell);
      busy := false;
      new;
      EmptyRowFilledPrefix(n);
      assert cells[..] == seq(n, _ => EmptyCell);
    }

    /** Empties the row for an n-letter target and clears busy. */
    method Reset(n: nat)
      requires n > 0
      modifies this
      ensures Valid() && Pristine() && fresh(cells)
      ensures cells.Length == n
    {
      cells := new Cell[n](_ => EmptyCell);
      busy := false;
      EmptyRowFilledPrefix(n);
      assert cells[..] == seq(n, _ => EmptyCell);
    }

    /** The letter-input handler: value goes, upper-cased, into the first empty cell when
        it is a single ASCII letter and some cell is empty; otherwise nothing changes. */
    method Input(value: string)
      requires Valid()
      modifies cells
      ensures Valid()
      ensures cells[..] == AfterInput(old(cells[..]), value)
    {
      if !HasEmpty(cells[..]) {
        return;
      }
      if !IsAsciiLetter(value) {
        return;
      }
      var k := FirstEmpty(cells[..]);
      InputKeepsFilledPrefix(cells[..], value);
      cells[k] := cells[k].(value := [Upper(value[0])]);
    }

    /** The delete handler: clears the last cell of a full row, or the cell before the
        first empty one; an empty first cell leaves the row alone. */
    method Delete()
      requires Valid()
      modifies cells
      ensures Valid()
      ensures cells[..] == AfterDelete(old(cells[..]))
    {
      DeleteKeepsFilledPrefix(cells[..]);
      var k := FirstEmpty(cells[..]);
      if k == -1 {
        cells[cells.Length - 1] := cells[cells.Length - 1].(value := "");
      } else if k != 0 {
        cells[k - 1] := cells[k - 1].(value := "");
      }
    }

    /** One step of the check loop: flips cell i, resolves its status and reports
        whether it matched the target letter at that position. */
    method ResolveCell(word: seq<char>, i: nat) returns (correct: bool)
      requires i < cells.Length == |word|
      modifies cells
      ensures cells[i] == Resolved(old(cells[i]), word, i)
      ensures forall j :: 0 <= j < cells.Length && j != i ==> cells[j] == old(cells[j])
      ensures correct <==> cells[i].status == Some(Correct)
    {
      cells[i] := cells[i].(animating := true);
      var letter := cells[i].value;
      correct := false;
      if [word[i]] == letter {
        cells[i] := cells[i].(status := Some(Correct));
        correct := true;
      } else if |letter| == 1 && letter[0] in word {
        cells[i] := cells[i].(status := Some(Present));
      } else {
        cells[i] := cells[i].(status := Some(Absent));
      }
      cells[i] := cells[i].(animating := false);
    }

    /** The check handler. With an empty cell it does nothing. Otherwise it marks the row
        busy, resolves each cell left to right, and reports a win when the guess spells
        the target, a loss when currentRow equals the word length, and an advance
        otherwise. */
    method Check(word: seq<char>, currentRow: int) returns (outcome: Outcome)
      requires Valid() && cells.Length == |word|
      modifies this, cells
      ensures Valid() && cells == old(cells)
      ensures old(HasEmpty(cells[..])) ==> outcome == NotChecked && unchanged(this, cells)
      ensures !old(HasEmpty(cells[..])) ==> busy
      ensures !old(HasEmpty(cells[..])) ==>
        forall i :: 0 <= i < |word| ==> cells[i] == Resolved(old(cells[i]), word, i)
      ensures !old(HasEmpty(cells[..])) ==> outcome == Decide(CountCorrect(cells[..]), |word|, currentRow)
      ensures !old(HasEmpty(cells[..])) ==>
        (outcome == Won <==> SpellsWord(old(cells[..]), word))
      ensures !old(HasEmpty(cells[..])) ==>
        (outcome == Lost <==> !SpellsWord(old(cells[..]), word) && currentRow == |word|)
      ensures !old(HasEmpty(cells[..])) ==>
        (outcome == Advance <==> !SpellsWord(old(cells[..]), word) && currentRow != |word|)
    {
      if HasEmpty(cells[..]) {
        return NotChecked;
      }
      ghost var guess := cells[..];
      busy := true;
      var countCorrect := 0;
      for i := 0 to |word|
        invariant busy && cells == old(cells) && |guess| == cells.Length
        invariant forall j :: 0 <= j < i ==> cells[j] == Resolved(guess[j], word, j)
        invariant forall j :: i <= j < |word| ==> cells[j] == guess[j]
        invariant countCorrect == CountCorrect(cells[..i])
      {
        ghost var done := cells[..i];
        var correct := ResolveCell(word, i);
        if correct {
          countCorrect := countCorrect + 1;
        }
        assert cells[..i + 1][..i] == cells[..i] == done;
      }
      assert cells[..|word|] == cells[..];
      ResolvedRow(guess, cells[..], word);
      outcome := Decide(countCorrect, |word|, currentRow);
    }
  }

  /** What the pass leaves behind: the same letters, so the row invariant survives, and
      a full count of Correct exactly when the guess spells the target. */
  lemma ResolvedRow(guess: seq<Cell>, r: seq<Cell>, word: seq<char>)
    requires |guess| == |r| == |word|
    requires forall i :: 0 <= i < |r| ==> r[i] == Resolved(guess[i], word, i)
    ensures forall i :: 0 <= i < |r| ==> r[i].value == guess[i].value
    ensures FilledPrefix(guess) ==> FilledPrefix(r)
    ensures CountCorrect(r) == |word| <==> SpellsWord(guess, word)
  {
    CountCorrectAll(r);
  }
}
