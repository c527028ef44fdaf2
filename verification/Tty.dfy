/** The line discipline of a terminal: a process that reads is suspended, what is typed is
    edited into its buffer, and it is resumed when the line ends or the buffer is full. */
module Tty {

  const NR_TTY_BUF: nat := 4096
  const NEWLINE: nat := 10
  const BACKSPACE: nat := 8

  /** The character of a key: its lowest byte. */
  function Char(key: nat): (c: nat)
    ensures c < 256
  {
    key % 256
  }

  predicate Printable(c: nat) { 32 <= c <= 126 }

  /** Nothing is set in the key but its lowest byte and the shift flags. */
  predicate Plain(key: nat) { key / 256 % 2 == 0 && key / 0x800 == 0 }

  // ---------------------------------------------------------------- the line as a function of the keys

  /** The line that has been typed, and whether it has ended. */
  datatype Line = Line(text: seq<nat>, ended: bool)

  /** One more character for a line that has not ended. */
  function Edited(text: seq<nat>, c: nat): (r: seq<nat>)
    ensures |r| <= |text| + 1
  {
    if Printable(c) then text + [c]
    else if c == BACKSPACE && |text| > 0 then text[..|text| - 1]
    else text
  }

  /** The line after the characters cs have been typed for a read of n characters: it ends at
      a newline, or when it is full; what is typed after that does not count. */
  function Typed(cs: seq<nat>, n: nat): (l: Line)
    ensures |l.text| <= n
    ensures !l.ended ==> |l.text| < n
  {
    if cs == [] then Line([], n == 0)
    else
      var l, c := Typed(cs[..|cs| - 1], n), cs[|cs| - 1];
      if l.ended then l
      else
        var text := Edited(l.text, c);
        Line(text, c == NEWLINE || |text| == n)
  }

  lemma TypedMore(cs: seq<nat>, c: nat, n: nat)
    ensures var l := Typed(cs, n);
            Typed(cs + [c], n) == if l.ended then l else Line(Edited(l.text, c), c == NEWLINE || |Edited(l.text, c)| == n)
  {
    assert (cs + [c])[..|cs|] == cs;
  }

  /** What has ended stays as it is. */
  lemma {:induction false} EndedStays(cs: seq<nat>, more: seq<nat>, n: nat)
    requires Typed(cs, n).ended
    ensures Typed(cs + more, n) == Typed(cs, n)
  {
    if more == [] {
      assert cs + more == cs;
    } else {
      var k := |more| - 1;
      EndedStays(cs, more[..k], n);
      assert cs + more == (cs + more[..k]) + [more[k]];
      TypedMore(cs + more[..k], more[k], n);
    }
  }

  /** Before the line has ended, a printable character is appended, a backspace takes the last one
      away if there is one, a newline ends the line, and any other character does nothing. */
  lemma KeyEffect(cs: seq<nat>, c: nat, n: nat)
    requires !Typed(cs, n).ended
    ensures var l, l' := Typed(cs, n), Typed(cs + [c], n);
            && (32 <= c <= 126 ==> l'.text == l.text + [c] && (l'.ended <==> |l.text| + 1 == n))
            && (c == 8 && l.text != [] ==> l'.text + [l.text[|l.text| - 1]] == l.text && !l'.ended)
            && (c == 8 && l.text == [] ==> l' == l)
            && (c == 10 ==> l'.text == l.text && l'.ended)
            && (!(32 <= c <= 126) && c != 8 && c != 10 ==> l' == l)
  {
    TypedMore(cs, c, n);
    hide Typed;
  }

  /** A printable character and a backspace behind it cancel, unless the character made the
      line full. */
  lemma BackspaceCancels(cs: seq<nat>, c: nat, n: nat)
    requires Printable(c) && !Typed(cs, n).ended && |Typed(cs, n).text| + 1 < n
    ensures Typed(cs + [c] + [BACKSPACE], n) == Typed(cs, n)
  {
    TypedMore(cs, c, n);
    TypedMore(cs + [c], BACKSPACE, n);
  }

  /** Fewer printable characters than were asked for, then a newline: the line is just them. */
  lemma {:induction false} PlainLine(cs: seq<nat>, n: nat)
    requires |cs| < n && forall i | 0 <= i < |cs| :: Printable(cs[i])
    ensures Typed(cs, n) == Line(cs, false) && Typed(cs + [NEWLINE], n) == Line(cs, true)
  {
    TypedNothing(n);
    hide Typed;
    if cs != [] {
      var k := |cs| - 1;
      PlainLine(cs[..k], n);
      TypedMore(cs[..k], cs[k], n);
      assert cs == cs[..k] + [cs[k]];
    }
    TypedMore(cs, NEWLINE, n);
  }

  lemma TypedNothing(n: nat)
    ensures Typed([], n) == Line([], n == 0)
  {}

  /** As many printable characters as were asked for end the line without a newline. */
  lemma FullLine(cs: seq<nat>, n: nat)
    requires |cs| == n > 0 && forall i | 0 <= i < |cs| :: Printable(cs[i])
    ensures Typed(cs, n) == Line(cs, true)
  {
    hide Typed;
    PlainLine(cs[..n - 1], n);
    assert cs == cs[..n - 1] + [cs[n - 1]];
    TypedMore(cs[..n - 1], cs[n - 1], n);
  }

  /** A line ends at one character only. */
  lemma {:induction false} EndsOnce(cs: seq<nat>, n: nat)
    requires n > 0
    ensures Typed(cs, n).ended <==> exists i :: 0 <= i < |cs| && EndsAt(cs, n, i)
    ensures forall i, j | 0 <= i < |cs| && 0 <= j < |cs| && EndsAt(cs, n, i) && EndsAt(cs, n, j) :: i == j
  {
    TypedNothing(n);
    hide Typed;
    if cs != [] {
      var k := |cs| - 1;
      EndsOnce(cs[..k], n);
      assert cs[..k + 1] == cs;
      forall i | 0 <= i < k ensures EndsAt(cs, n, i) <==> EndsAt(cs[..k], n, i) {
        assert cs[..k][..i] == cs[..i] && cs[..k][..i + 1] == cs[..i + 1];
      }
      forall i | 0 <= i < k && EndsAt(cs, n, i) ensures !EndsAt(cs, n, k) && Typed(cs, n).ended {
        EndedStays(cs[..i + 1], cs[i + 1..], n);
        EndedStays(cs[..i + 1], cs[i + 1..k], n);
        assert cs[..i + 1] + cs[i + 1..k] == cs[..k] && cs[..i + 1] + cs[i + 1..] == cs;
      }
      assert Typed(cs, n).ended && !Typed(cs[..k], n).ended ==> EndsAt(cs, n, k);
    }
  }

  /** Character i is the one the line ends at. */
  predicate EndsAt(cs: seq<nat>, n: nat, i: nat)
    requires i < |cs|
  {
    !Typed(cs[..i], n).ended && Typed(cs[..i + 1], n).ended
  }

  // ---------------------------------------------------------------- the terminal

  /** Messages the terminal sends about a reader. */
  datatype Message = Suspend(to: nat, cnt: nat) | Resume(to: nat, procNr: nat, cnt: nat)

  /** What has been sent for a read of n characters once cs have been typed: the reader is
      suspended, and resumed with the length of its line exactly when that has ended. */
  function Replies(caller: nat, procNr: nat, n: nat, cs: seq<nat>): seq<Message> {
    [Suspend(caller, n)] + if n > 0 && Typed(cs, n).ended then [Resume(caller, procNr, |Typed(cs, n).text|)] else []
  }

  class Terminal {
    var input: seq<nat>
    var caller: nat
    var procNr: nat
    var reqBuf: array<nat>
    var leftCnt: nat
    var transCnt: nat

    /** How many characters the read that was asked for last wants, what has been typed since,
        and the messages sent about it. */
    ghost var wanted: nat
    ghost var typed: seq<nat>
    ghost var sent: seq<Message>

    /** The reader's buffer holds the line that has been typed; what is transferred and what is
        left add up to what was asked for until the line ends; the messages are as they
        should be. */
    ghost predicate Valid()
      reads this, reqBuf
    {
      var l := Typed(typed, wanted);
      && |input| <= NR_TTY_BUF && wanted <= reqBuf.Length
      && transCnt == |l.text| && reqBuf[..transCnt] == l.text
      && leftCnt == (if l.ended then 0 else wanted - transCnt)
      && sent == Replies(caller, procNr, wanted, typed)
    }

    /** A terminal as it is when a first read has been asked for. */
    constructor (src: nat, procNr: nat, buf: array<nat>, cnt: nat)
      requires cnt <= buf.Length
      ensures Valid() && input == [] && typed == [] && wanted == cnt && reqBuf == buf && this.procNr == procNr && caller == src
    {
      input := [];
      caller, this.procNr, reqBuf, leftCnt, transCnt := src, procNr, buf, cnt, 0;
      wanted, typed := cnt, [];
      sent := [Suspend(src, cnt)];
    }

    /** in_process: a plain key goes to the input, if there is room. */
    method InProcess(key: nat)
      requires Valid()
      modifies this`input
      ensures Valid()
      ensures input == if Plain(key) && |old(input)| < NR_TTY_BUF then old(input) + [key] else old(input)
    {
      if Plain(key) && |input| < NR_TTY_BUF {
        input := input + [key];
      }
    }

    /** A read is asked for: cnt characters to the start of buf. */
    method DoRead(src: nat, proc: nat, buf: array<nat>, cnt: nat)
      requires Valid() && cnt <= buf.Length
      modifies this
      ensures Valid() && wanted == cnt && typed == [] && caller == src && procNr == proc && reqBuf == buf
      ensures input == old(input)
    {
      caller, procNr, reqBuf, leftCnt, transCnt := src, proc, buf, cnt, 0;
      wanted, typed := cnt, [];
      sent := [Suspend(src, cnt)];
    }

    /** tty_dev_write: takes one key from the input; returns whether the reader was resumed. */
    method DevWrite() returns (resumed: bool)
      requires Valid()
      modifies this`input, this`leftCnt, this`transCnt, this`typed, this`sent, reqBuf
      ensures Valid()
      ensures if old(input) == [] then input == [] && typed == old(typed) && reqBuf[..] == old(reqBuf[..])
              else input == old(input)[1..] && typed == old(typed) + [Char(old(input)[0])]
      ensures sent == old(sent) + if resumed then [Resume(caller, procNr, transCnt)] else []
      ensures resumed <==> old(leftCnt) > 0 && leftCnt == 0
      ensures reqBuf[wanted..] == old(reqBuf[wanted..])
    {
      hide Typed;
      resumed := false;
      if |input| > 0 {
        var ch := Char(input[0]);
        input := input[1..];
        TypedMore(typed, ch, wanted);
        ghost var l := Typed(typed, wanted);
        typed := typed + [ch];
        if leftCnt != 0 {
          if Printable(ch) {
            reqBuf[transCnt] := ch;
            transCnt := transCnt + 1;
            leftCnt := leftCnt - 1;
          } else if ch == BACKSPACE && transCnt != 0 {
            transCnt := transCnt - 1;
            leftCnt := leftCnt + 1;
          }
          if ch == NEWLINE || leftCnt == 0 {
            sent := sent + [Resume(caller, procNr, transCnt)];
            leftCnt := 0;
            resumed := true;
          }
        }
      }
    }
  }
}
