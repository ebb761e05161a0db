/**
 * The line format of saved_cells.txt in Conways_game_of_life.py.
 * save_cells_onto_file writes Python's str((x, y)) followed by a newline
 * for every live cell; load_cells keeps the decimal digits of each line,
 * sending those before the first comma to x and those after it to y.
 * A file is modelled as the sequence of its lines, each with its newline.
 */
module SaveFormat {
  import opened Wrappers
  import opened SparseRules

  /** The test `c in "0123456789"`. */
  predicate IsDigit(c: char) {
    '0' <= c <= '9'
  }

  predicate AllDigits(s: string) {
    forall i :: 0 <= i < |s| ==> IsDigit(s[i])
  }

  function DigitChar(d: nat): (c: char)
    requires d < 10
    ensures IsDigit(c)
  {
    ('0' as int + d) as char
  }

  function DigitValue(c: char): nat
    requires IsDigit(c)
  {
    c as int - '0' as int
  }

  // ---------------------------------------------------------------------
  // Writing: Python's str of an int and of a pair
  // ---------------------------------------------------------------------

  /** Python's str of a non-negative int: its decimal digits. */
  function NatToString(n: nat): (s: string)
    ensures |s| >= 1 && AllDigits(s)
  {
    if n < 10 then [DigitChar(n)]
    else NatToString(n / 10) + [DigitChar(n % 10)]
  }

  /** Python's str of an int: a minus sign before the digits of a negative one. */
  function IntToString(i: int): string {
    if i < 0 then "-" + NatToString(-i) else NatToString(i)
  }

  /** Python's str((x, y)) for a cell. */
  function Show(c: Cell): string {
    "(" + IntToString(c.0) + ", " + IntToString(c.1) + ")"
  }

  /** The lines save_cells_onto_file writes for pos_list = cells. */
  function SaveLines(cells: seq<Cell>): (lines: seq<string>)
    ensures |lines| == |cells|
  {
    seq(|cells|, i requires 0 <= i < |cells| => Show(cells[i]) + "\n")
  }

  // ---------------------------------------------------------------------
  // Reading: the digit scan of load_cells
  // ---------------------------------------------------------------------

  /** Python's int() of a string of ASCII digits (leading zeros allowed). */
  function DigitsValue(s: string): nat
    requires AllDigits(s)
  {
    if s == [] then 0
    else DigitsValue(s[..|s| - 1]) * 10 + DigitValue(s[|s| - 1])
  }

  /** The digits of s, in order; every other character is ignored. */
  function KeepDigits(s: string): (r: string)
    ensures AllDigits(r) && |r| <= |s|
  {
    if s == [] then []
    else KeepDigits(s[..|s| - 1]) + (if IsDigit(s[|s| - 1]) then [s[|s| - 1]] else [])
  }

  /** The text before the first comma and the text after it (all of s and nothing when s has no comma). */
  function CommaSplit(s: string): (r: (string, string))
    ensures ',' in s ==> ',' !in r.0 && s == r.0 + [','] + r.1
    ensures ',' !in s ==> r == (s, [])
  {
    if s == [] then ([], [])
    else if s[0] == ',' then
      assert s == [] + [','] + s[1..];
      ([], s[1..])
    else
      var r := CommaSplit(s[1..]);
      assert s == [s[0]] + s[1..];
      assert ',' in s <==> ',' in s[1..];
      assert [s[0]] + r.0 + [','] + r.1 == [s[0]] + (r.0 + [','] + r.1);
      ([s[0]] + r.0, r.1)
  }

  /** The cell load_cells appends for one line, or None where its int() raises ValueError. */
  function Decode(line: string): Option<Cell> {
    var (before, after) := CommaSplit(line);
    var first, second := KeepDigits(before), KeepDigits(after);
    if first == [] || second == [] then None
    else Some((DigitsValue(first), DigitsValue(second)))
  }

  /**
   * The state of load_cells' character loop after reading s: first_num,
   * second_num and change_num.
   */
  function Scan(s: string): (string, string, bool) {
    if s == [] then ("", "", false)
    else
      var st, c := Scan(s[..|s| - 1]), s[|s| - 1];
      if IsDigit(c) && !st.2 then (st.0 + [c], st.1, st.2)
      else if IsDigit(c) then (st.0, st.1 + [c], st.2)
      else if c == ',' then (st.0, st.1, true)
      else st
  }

  /** The loop's state is the digits on either side of the first comma, and whether there is one. */
  lemma {:induction false} ScanIsSplit(s: string)
    ensures Scan(s) == (KeepDigits(CommaSplit(s).0), KeepDigits(CommaSplit(s).1), ',' in s)
  {
    if s != [] {
      var p, c := s[..|s| - 1], s[|s| - 1];
      assert s == p + [c];
      ScanIsSplit(p);
      KeepDigitsSnoc(p, c);
      if ',' in p {
        var (a, b) := CommaSplit(p);
        assert s == a + [','] + (b + [c]);
        CommaSplitAt(a, b + [c]);
        KeepDigitsSnoc(b, c);
      } else if c == ',' {
        assert s == p + [','] + [];
        CommaSplitAt(p, []);
      } else {
        assert ',' !in s;
      }
    }
  }

  /** One more character adds itself to the digits exactly when it is a digit. */
  lemma KeepDigitsSnoc(s: string, c: char)
    ensures IsDigit(c) ==> KeepDigits(s + [c]) == KeepDigits(s) + [c]
    ensures !IsDigit(c) ==> KeepDigits(s + [c]) == KeepDigits(s)
  {
    assert (s + [c])[..|s|] == s;
  }

  /** The scan loop of load_cells for one line: digits before the first comma go to x, the rest to y. */
  method ParseLine(line: string) returns (r: Option<Cell>)
    ensures r == Decode(line)
  {
    var firstNum, secondNum := "", "";
    var changeNum := false;
    for i := 0 to |line|
      invariant (firstNum, secondNum, changeNum) == Scan(line[..i])
    {
      var c := line[i];
      SliceSnoc(line, 0, i);
      if IsDigit(c) {
        if !changeNum {
          firstNum := firstNum + [c];
        } else {
          secondNum := secondNum + [c];
        }
      } else if c == ',' {
        changeNum := true;
      }
    }
    assert line[..|line|] == line;
    ScanIsSplit(line);
    if firstNum == "" || secondNum == "" {
      r := None;
    } else {
      r := Some((DigitsValue(firstNum), DigitsValue(secondNum)));
    }
  }

  lemma SliceSnoc(s: string, a: nat, b: nat)
    requires a <= b < |s|
    ensures s[a..b + 1] == s[a..b] + [s[b]]
  {
  }

  lemma {:induction false} CommaSplitAt(p: string, q: string)
    requires ',' !in p
    ensures CommaSplit(p + [','] + q) == (p, q)
  {
    if p != [] {
      assert (p + [','] + q)[1..] == p[1..] + [','] + q;
      CommaSplitAt(p[1..], q);
      assert p == [p[0]] + p[1..];
    }
  }

  lemma {:induction false} KeepDigitsConcat(a: string, b: string)
    ensures KeepDigits(a + b) == KeepDigits(a) + KeepDigits(b)
  {
    if b != [] {
      assert (a + b)[..|a + b| - 1] == a + b[..|b| - 1];
      KeepDigitsConcat(a, b[..|b| - 1]);
    } else {
      assert a + b == a;
    }
  }

  lemma {:induction false} KeepDigitsOfDigits(s: string)
    requires AllDigits(s)
    ensures KeepDigits(s) == s
  {
    if s != [] {
      KeepDigitsOfDigits(s[..|s| - 1]);
    }
  }

  lemma {:induction false} DigitsValueOfNatToString(n: nat)
    ensures DigitsValue(NatToString(n)) == n
  {
    if n >= 10 {
      var s := NatToString(n);
      assert s[..|s| - 1] == NatToString(n / 10);
      DigitsValueOfNatToString(n / 10);
    }
  }

  function Abs(i: int): nat {
    if i < 0 then -i else i
  }

  lemma IntToStringFacts(i: int)
    ensures ',' !in IntToString(i)
    ensures KeepDigits(IntToString(i)) == NatToString(Abs(i))
    ensures '-' in IntToString(i) <==> i < 0
  {
    var ds := NatToString(Abs(i));
    assert ',' !in ds && '-' !in ds by {
      forall k | 0 <= k < |ds| ensures IsDigit(ds[k]) {}
    }
    KeepDigitsOfDigits(ds);
    if i < 0 {
      KeepDigitsConcat("-", ds);
      assert KeepDigits("-") == [] by { assert "-"[..0] == []; }
    }
  }

  /** The text "(a, b)" followed by a newline, cut at the comma after a. */
  lemma PairText(a: string, b: string)
    requires ',' !in a
    ensures "(" + a + ", " + b + ")" + "\n" == ("(" + a) + [','] + (" " + b + ")\n")
    ensures ',' !in "(" + a
  {
    assert "(" + a == ['('] + a;
    assert ", " == [','] + " " && ")" + "\n" == ")\n";
  }

  /** The text between the parenthesis and the comma of Show(c), and after the comma. */
  lemma ShowSplit(c: Cell)
    ensures CommaSplit(Show(c) + "\n") == ("(" + IntToString(c.0), " " + IntToString(c.1) + ")\n")
  {
    var a, b := IntToString(c.0), IntToString(c.1);
    IntToStringFacts(c.0);
    PairText(a, b);
    CommaSplitAt("(" + a, " " + b + ")\n");
  }

  lemma {:induction false} KeepDigitsNone(s: string)
    requires forall k :: 0 <= k < |s| ==> !IsDigit(s[k])
    ensures KeepDigits(s) == []
  {
    if s != [] {
      KeepDigitsNone(s[..|s| - 1]);
    }
  }

  /** The text before the comma of Show(c): its digits and its minus sign are those of c.0. */
  lemma FirstField(c: Cell)
    ensures KeepDigits("(" + IntToString(c.0)) == NatToString(Abs(c.0))
    ensures '-' in "(" + IntToString(c.0) <==> c.0 < 0
  {
    IntToStringFacts(c.0);
    KeepDigitsConcat("(", IntToString(c.0));
    KeepDigitsNone("(");
  }

  /** The text after the comma of Show(c) + "\n": its digits and its minus sign are those of c.1. */
  lemma SecondField(c: Cell)
    ensures KeepDigits(" " + IntToString(c.1) + ")\n") == NatToString(Abs(c.1))
    ensures '-' in " " + IntToString(c.1) + ")\n" <==> c.1 < 0
  {
    IntToStringFacts(c.1);
    Framed(IntToString(c.1));
  }

  /** Framing a text as " " + b + ")\n" adds no digit and no minus sign. */
  lemma Framed(b: string)
    ensures KeepDigits(" " + b + ")\n") == KeepDigits(b)
    ensures '-' in " " + b + ")\n" <==> '-' in b
  {
    KeepDigitsConcat(" ", b);
    KeepDigitsConcat(" " + b, ")\n");
    KeepDigitsNone(" ");
    KeepDigitsNone(")\n");
    assert " " + b + ")\n" == [' '] + b + [')', '\n'];
  }

  /** Loading a saved line gives back the cell with the minus signs dropped. */
  lemma DecodeShow(c: Cell)
    ensures Decode(Show(c) + "\n") == Some((Abs(c.0), Abs(c.1)))
  {
    ShowSplit(c);
    FirstField(c);
    SecondField(c);
    DigitsValueOfNatToString(Abs(c.0));
    DigitsValueOfNatToString(Abs(c.1));
  }

  /** For example the saved cell (-3, 4) loads as (3, 4). */
  lemma NegativeLoadsMirrored()
    ensures Decode(Show((-3, 4)) + "\n") == Some((3, 4))
  {
    DecodeShow((-3, 4));
  }

  // ---------------------------------------------------------------------
  // Whole files
  // ---------------------------------------------------------------------

  predicate AllDecode(lines: seq<string>) {
    forall i :: 0 <= i < |lines| ==> Decode(lines[i]).Some?
  }

  /** The cells load_cells appends for a file whose every line decodes. */
  function DecodeAll(lines: seq<string>): (r: seq<Cell>)
    requires AllDecode(lines)
    ensures |r| == |lines|
    ensures forall i :: 0 <= i < |lines| ==> Decode(lines[i]) == Some(r[i])
  {
    if lines == [] then []
    else DecodeAll(lines[..|lines| - 1]) + [Decode(lines[|lines| - 1]).value]
  }

  /** One more decodable line extends the decoded prefix by that line's cell. */
  lemma DecodeAllSnoc(lines: seq<string>, i: nat)
    requires i < |lines| && AllDecode(lines[..i]) && Decode(lines[i]).Some?
    ensures AllDecode(lines[..i + 1])
    ensures DecodeAll(lines[..i + 1]) == DecodeAll(lines[..i]) + [Decode(lines[i]).value]
  {
    var pre := lines[..i + 1];
    assert pre[..i] == lines[..i];
    forall k | 0 <= k < |pre| ensures Decode(pre[k]).Some? {
      if k < i { assert pre[k] == lines[..i][k]; }
    }
  }

  /** Saving then loading gives back every cell with its coordinates' minus signs dropped. */
  lemma SaveLoadRoundTrip(cells: seq<Cell>)
    ensures AllDecode(SaveLines(cells))
    ensures |DecodeAll(SaveLines(cells))| == |cells|
    ensures forall i :: 0 <= i < |cells| ==>
      DecodeAll(SaveLines(cells))[i] == (Abs(cells[i].0), Abs(cells[i].1))
  {
    var lines := SaveLines(cells);
    forall i | 0 <= i < |cells| ensures Decode(lines[i]) == Some((Abs(cells[i].0), Abs(cells[i].1))) {
      DecodeShow(cells[i]);
    }
  }

  /** Cells with non-negative coordinates survive a save and a load unchanged. */
  lemma SaveLoadNonNegative(cells: seq<Cell>)
    requires forall i :: 0 <= i < |cells| ==> cells[i].0 >= 0 && cells[i].1 >= 0
    ensures AllDecode(SaveLines(cells)) && DecodeAll(SaveLines(cells)) == cells
  {
    SaveLoadRoundTrip(cells);
  }

  // ---------------------------------------------------------------------
  // A reader that keeps the sign
  // ---------------------------------------------------------------------

  /** One coordinate field: its digits, negated when the field holds a minus sign. */
  function SignedField(field: string): Option<int> {
    var ds := KeepDigits(field);
    if ds == [] then None
    else
      var v: int := DigitsValue(ds);
      Some(if '-' in field then -v else v)
  }

  /** Decode, but honouring a minus sign in either field. */
  function DecodeSigned(line: string): Option<Cell> {
    var (before, after) := CommaSplit(line);
    match (SignedField(before), SignedField(after))
    case (Some(x), Some(y)) => Some((x, y))
    case _ => None
  }

  lemma SignedFieldOf(field: string, v: int)
    requires KeepDigits(field) == NatToString(Abs(v))
    requires '-' in field <==> v < 0
    ensures SignedField(field) == Some(v)
  {
    DigitsValueOfNatToString(Abs(v));
  }

  /** Every saved line, negative coordinates included, reads back as the cell that was saved. */
  lemma DecodeSignedShow(c: Cell)
    ensures DecodeSigned(Show(c) + "\n") == Some(c)
  {
    ShowSplit(c);
    FirstField(c);
    SecondField(c);
    SignedFieldOf("(" + IntToString(c.0), c.0);
    SignedFieldOf(" " + IntToString(c.1) + ")\n", c.1);
    DecodeSignedOf(Show(c) + "\n", "(" + IntToString(c.0), " " + IntToString(c.1) + ")\n", c);
  }

  lemma DecodeSignedOf(line: string, p: string, q: string, c: Cell)
    requires CommaSplit(line) == (p, q)
    requires SignedField(p) == Some(c.0) && SignedField(q) == Some(c.1)
    ensures DecodeSigned(line) == Some(c)
  {
  }

  predicate AllDecodeSigned(lines: seq<string>) {
    forall i :: 0 <= i < |lines| ==> DecodeSigned(lines[i]).Some?
  }

  /** The cells the sign-keeping reader appends for a file whose every line decodes. */
  function DecodeAllSigned(lines: seq<string>): (r: seq<Cell>)
    requires AllDecodeSigned(lines)
    ensures |r| == |lines|
    ensures forall i :: 0 <= i < |lines| ==> DecodeSigned(lines[i]) == Some(r[i])
  {
    if lines == [] then []
    else DecodeAllSigned(lines[..|lines| - 1]) + [DecodeSigned(lines[|lines| - 1]).value]
  }

  /** One more line the sign-keeping reader accepts extends the decoded prefix by that line's cell. */
  lemma DecodeAllSignedSnoc(lines: seq<string>, i: nat)
    requires i < |lines| && AllDecodeSigned(lines[..i]) && DecodeSigned(lines[i]).Some?
    ensures AllDecodeSigned(lines[..i + 1])
    ensures DecodeAllSigned(lines[..i + 1]) == DecodeAllSigned(lines[..i]) + [DecodeSigned(lines[i]).value]
  {
    var pre := lines[..i + 1];
    assert pre[..i] == lines[..i];
    forall k | 0 <= k < |pre| ensures DecodeSigned(pre[k]).Some? {
      if k < i { assert pre[k] == lines[..i][k]; }
    }
  }

  /** With the sign-keeping reader, saving then loading gives back exactly the saved cells. */
  lemma SaveLoadSignedRoundTrip(cells: seq<Cell>)
    ensures AllDecodeSigned(SaveLines(cells)) && DecodeAllSigned(SaveLines(cells)) == cells
  {
    var lines := SaveLines(cells);
    forall i | 0 <= i < |cells| ensures DecodeSigned(lines[i]) == Some(cells[i]) {
      DecodeSignedShow(cells[i]);
    }
  }
}
