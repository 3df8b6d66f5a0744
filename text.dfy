/** The board's two textual forms that the model keeps: moveString, the
    "row col" form of a move, and toString, the dump of the squares
    between two "===" lines. Numbers are written as Java's %d writes an
    int: decimal, with a leading '-' when negative. */
module Text {
  import opened JavaInts
  import opened Squares
  import opened Geometry

  // ---- Decimal numbers

  predicate IsDigit(ch: char)
  {
    '0' <= ch <= '9'
  }

  function Digit(d: int): (ch: char)
    requires 0 <= d < 10
    ensures IsDigit(ch)
  {
    ('0' as int + d) as char
  }

  /** The decimal digits of n, without leading zeros. */
  function NatToDec(n: nat): string
    decreases n
  {
    if n < 10 then [Digit(n)] else NatToDec(n / 10) + [Digit(n % 10)]
  }

  /** What %d prints for i. */
  function IntToDec(i: int): string
  {
    if i < 0 then "-" + NatToDec(-i) else NatToDec(i)
  }

  /** The digits of a natural number: at least one, and nothing else. */
  lemma {:induction false} NatToDecDigits(n: nat)
    ensures |NatToDec(n)| >= 1 && forall k :: 0 <= k < |NatToDec(n)| ==> IsDigit(NatToDec(n)[k])
    decreases n
  {
    if n >= 10 {
      NatToDecDigits(n / 10);
    }
  }

  /** %d of an int: a non-empty string of digits, with a '-' in front when
      the number is negative, and so never a space. */
  lemma IntToDecChars(i: int)
    ensures |IntToDec(i)| >= 1
    ensures forall k :: 0 <= k < |IntToDec(i)| ==> IsDigit(IntToDec(i)[k]) || (k == 0 && i < 0 && IntToDec(i)[k] == '-')
    ensures forall k :: 0 <= k < |IntToDec(i)| ==> IntToDec(i)[k] != ' '
  {
    NatToDecDigits(if i < 0 then -i else i);
  }

  /** The value of a string of decimal digits. */
  function DecValue(s: string): int
  {
    if s == [] then 0 else DecValue(s[..|s| - 1]) * 10 + (s[|s| - 1] as int - '0' as int)
  }

  /** The integer a %d rendering denotes. */
  function ParseInt(s: string): int
  {
    if |s| > 0 && s[0] == '-' then -DecValue(s[1..]) else DecValue(s)
  }

  lemma {:induction false} NatToDecRoundTrip(n: nat)
    ensures DecValue(NatToDec(n)) == n
    decreases n
  {
    var s := NatToDec(n);
    if n >= 10 {
      assert s[..|s| - 1] == NatToDec(n / 10);
      NatToDecRoundTrip(n / 10);
    }
  }

  /** Reading back what %d prints gives the number printed. */
  lemma IntToDecRoundTrip(i: int)
    ensures ParseInt(IntToDec(i)) == i
  {
    if i < 0 {
      assert IntToDec(i)[1..] == NatToDec(-i);
      NatToDecRoundTrip(-i);
    } else {
      NatToDecDigits(i);
      assert IsDigit(IntToDec(i)[0]);
      NatToDecRoundTrip(i);
    }
  }

  // ---- moveString

  /** moveString(row, col): "%d %d". */
  function MoveString(row: int, col: int): string
  {
    IntToDec(row) + " " + IntToDec(col)
  }

  /** moveString(n): the row and column of square n. */
  function MoveStringOf(N: nat, n: int): string
    requires N > 0
  {
    MoveString(Row(N, n), Col(N, n))
  }

  /** The position of the first space in s (|s| if there is none). */
  function SpaceAt(s: string): (k: nat)
    ensures k <= |s|
  {
    if s == [] || s[0] == ' ' then 0 else 1 + SpaceAt(s[1..])
  }

  /** Reading a move back: the number before the first space is the row,
      the rest the column. */
  function ParseMove(s: string): (int, int)
  {
    var k := SpaceAt(s);
    if k < |s| then (ParseInt(s[..k]), ParseInt(s[k + 1..])) else (ParseInt(s), 0)
  }

  lemma {:induction false} SpaceAfter(x: string, y: string)
    requires forall k :: 0 <= k < |x| ==> x[k] != ' '
    ensures SpaceAt(x + " " + y) == |x|
  {
    if x != [] {
      assert (x + " " + y)[1..] == x[1..] + " " + y;
      SpaceAfter(x[1..], y);
    }
  }

  /** A move's string reads back as the same row and column. */
  lemma MoveStringRoundTrip(row: int, col: int)
    ensures ParseMove(MoveString(row, col)) == (row, col)
  {
    var x, y := IntToDec(row), IntToDec(col);
    IntToDecChars(row);
    SpaceAfter(x, y);
    var s := MoveString(row, col);
    assert s[..|x|] == x;
    assert s[|x| + 1..] == y;
    IntToDecRoundTrip(row);
    IntToDecRoundTrip(col);
  }

  /** Different moves have different strings. */
  lemma MoveStringInjective(r: int, c: int, r': int, c': int)
    ensures MoveString(r, c) == MoveString(r', c') <==> r == r' && c == c'
  {
    MoveStringRoundTrip(r, c);
    MoveStringRoundTrip(r', c');
  }

  /** moveString(n) of a square reads back as coordinates of the board that
      denote that same square. */
  lemma MoveStringOfRoundTrip(N: nat, n: int)
    requires ExistsSq(N, n)
    ensures N > 0
    ensures Exists(N, ParseMove(MoveStringOf(N, n)).0, ParseMove(MoveStringOf(N, n)).1)
    ensures SqNum(N, ParseMove(MoveStringOf(N, n)).0, ParseMove(MoveStringOf(N, n)).1) == n
  {
    SquareRoundTrip(N, n);
    MoveStringRoundTrip(Row(N, n), Col(N, n));
  }

  // ---- toString

  /** The letter toString writes for a side. */
  function SideLetter(s: Side): char
  {
    match s
    case RED => 'r'
    case BLUE => 'b'
    case WHITE => '-'
  }

  /** "%d%s " for one square: its spots, its side's letter and a space. */
  function SquareToken(q: Square): string
  {
    IntToDec(q.spots) + [SideLetter(q.side)] + " "
  }

  /** Whether toString starts a new row before square i (counting from 1):
      as written the test is i % N == 1, which the corrected test
      (i - 1) % N == 0 replaces. */
  predicate RowBreak(N: nat, i: int, corrected: bool)
  {
    N > 0 && i >= 1 && (if corrected then (i - 1) % N == 0 else i % N == 1)
  }

  /** The tokens of the squares of b, in order. */
  function Tokens(b: seq<Square>): (t: seq<string>)
    ensures |t| == |b|
  {
    if b == [] then [] else Tokens(b[..|b| - 1]) + [SquareToken(b[|b| - 1])]
  }

  /** Token i is the token of square i. */
  lemma {:induction false} TokensAt(b: seq<Square>, i: int)
    requires 0 <= i < |b|
    ensures Tokens(b)[i] == SquareToken(b[i])
  {
    if i < |b| - 1 {
      TokensAt(b[..|b| - 1], i);
      assert b[..|b| - 1][i] == b[i];
    }
  }

  /** What toString's loop has written after the first k tokens of t. */
  function DumpCells(N: nat, t: seq<string>, k: nat, corrected: bool): string
    requires k <= |t|
  {
    if k == 0 then ""
    else DumpCells(N, t, k - 1, corrected) + (if RowBreak(N, k, corrected) then "\n    " else "")
         + t[k - 1]
  }

  /** toString as written. */
  function DumpAsWritten(N: nat, b: seq<Square>): string
  {
    "===" + DumpCells(N, Tokens(b), |b|, false) + "\n==="
  }

  /** toString with the corrected row test. */
  function Dump(N: nat, b: seq<Square>): string
  {
    "===" + DumpCells(N, Tokens(b), |b|, true) + "\n==="
  }

  /** The reference layout: one line per row, each an indent followed by
      the tokens of that row's squares. */
  function RowsText(N: nat, t: seq<string>, r: nat): string
    requires r * N <= |t|
  {
    if r == 0 then ""
    else
      MulMono(r - 1, r, N);
      RowsText(N, t, r - 1) + "\n    " + RowCells(t, (r - 1) * N, N)
  }

  /** The k tokens from position start on, run together. */
  function RowCells(t: seq<string>, start: nat, k: nat): string
    requires start + k <= |t|
  {
    if k == 0 then "" else RowCells(t, start, k - 1) + t[start + k - 1]
  }

  /** q * N + m, for 0 <= m < N, leaves remainder m. */
  lemma RemOfRow(N: nat, q: nat, m: int)
    requires 0 <= m < N
    ensures (q * N + m) % N == m
  {
    var x := q * N + m;
    var q', m' := x / N, x % N;
    assert (q' - q) * N == m - m';
    ZeroMultiple(N, q' - q);
  }

  /** Past a multiple of N, the remainder is the offset. */
  lemma RemPastRowStart(N: nat, start: nat, j: int)
    requires N > 0 && start % N == 0 && 0 <= j < N
    ensures (start + j) % N == j
  {
    assert start == (start / N) * N;
    RemOfRow(N, start / N, j);
  }

  /** One more pass of toString's loop: the line break, if any, then the
      token of square i. */
  lemma DumpStep(N: nat, t: seq<string>, i: nat, corrected: bool, out: string, nl: string, tok: string)
    requires 1 <= i <= |t| && out == "===" + DumpCells(N, t, i - 1, corrected)
    requires nl == (if RowBreak(N, i, corrected) then "\n    " else "") && tok == t[i - 1]
    ensures out + nl + tok == "===" + DumpCells(N, t, i, corrected)
  {
    assert DumpCells(N, t, i, corrected) == DumpCells(N, t, i - 1, corrected) + nl + tok;
  }

  lemma AppendAssoc(x: string, y: string, z: string)
    ensures x + y + "" + z == x + (y + z)
  {
  }

  /** Row r (counting from 1) starts at a multiple of N and ends where row
      r + 1 starts. */
  lemma RowStart(N: nat, r: nat)
    requires N > 0 && r > 0
    ensures (r - 1) * N + N == r * N && ((r - 1) * N) % N == 0
  {
    RemOfRow(N, r - 1, 0);
  }

  /** The corrected dump of the first r rows is the reference layout. */
  lemma {:induction false} DumpLayout(N: nat, t: seq<string>, r: nat)
    requires |t| == N * N && r <= N
    ensures r * N <= |t|
    ensures DumpCells(N, t, r * N, true) == RowsText(N, t, r)
  {
    MulMono(r, N, N);
    if r > 0 && N > 0 {
      DumpLayout(N, t, r - 1);
      var start := (r - 1) * N;
      RowStart(N, r);
      DumpRow(N, t, start, N, RowsText(N, t, r - 1));
    }
  }

  /** Within a row starting at square number start the corrected dump
      breaks the line only before the row's first square. */
  lemma {:induction false} DumpRow(N: nat, t: seq<string>, start: nat, k: nat, before: string)
    requires N > 0 && start % N == 0 && 1 <= k <= N && start + k <= |t|
    requires DumpCells(N, t, start, true) == before
    ensures DumpCells(N, t, start + k, true) == before + "\n    " + RowCells(t, start, k)
  {
    var x := start + k;
    var tok := t[x - 1];
    var nl := "\n    ";
    var d := DumpCells(N, t, x - 1, true);
    assert DumpCells(N, t, x, true) == d + (if k == 1 then nl else "") + tok by {
      RemPastRowStart(N, start, k - 1);
      assert RowBreak(N, x, true) <==> k == 1;
    }
    var prev := RowCells(t, start, k - 1);
    assert RowCells(t, start, k) == prev + tok;
    if k > 1 {
      assert d == before + nl + prev by {
        DumpRow(N, t, start, k - 1, before);
        assert x - 1 == start + (k - 1);
      }
      AppendAssoc(before + nl, prev, tok);
    } else {
      assert prev == "";
    }
  }

  /** toString's whole dump: the reference layout between the two "==="
      lines. */
  lemma DumpIsRows(N: nat, b: seq<Square>)
    requires |b| == N * N
    ensures Dump(N, b) == "===" + RowsText(N, Tokens(b), N) + "\n==="
  {
    DumpLayout(N, Tokens(b), N);
  }

  /** On boards of side two or more the test as written breaks rows in
      exactly the same places. */
  lemma RowBreakAgrees(N: nat, i: int)
    requires N >= 2 && i >= 1
    ensures RowBreak(N, i, false) == RowBreak(N, i, true)
  {
    var q, m := (i - 1) / N, (i - 1) % N;
    assert i == q * N + (m + 1);
    if m + 1 < N {
      RemOfRow(N, q, m + 1);
    } else {
      assert i == (q + 1) * N + 0;
      RemOfRow(N, q + 1, 0);
    }
  }

  lemma {:induction false} DumpCellsAgree(N: nat, t: seq<string>, k: nat)
    requires N >= 2 && k <= |t|
    ensures DumpCells(N, t, k, false) == DumpCells(N, t, k, true)
  {
    if k > 0 {
      DumpCellsAgree(N, t, k - 1);
      RowBreakAgrees(N, k);
    }
  }

  /** toString as written is right on every board of side two or more. */
  lemma DumpAsWrittenAgrees(N: nat, b: seq<Square>)
    requires N >= 2
    ensures DumpAsWritten(N, b) == Dump(N, b)
  {
    DumpCellsAgree(N, Tokens(b), |b|);
  }

  /** On a fresh 1 x 1 board toString as written never starts the row
      (1 % 1 is 0), so the square lands on the "===" line. */
  lemma DumpAsWrittenOneByOne()
    ensures DumpAsWritten(1, [Square(WHITE, 1)]) == "===1- \n==="
    ensures Dump(1, [Square(WHITE, 1)]) == "===\n    1- \n==="
  {
    assert SquareToken(Square(WHITE, 1)) == "1- ";
  }
}
