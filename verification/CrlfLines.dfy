/** The framing of bench/capability-corpus/roundtrip.py's proxy: client bytes are cut
    into CRLF lines as they come in, whatever the chunks. */
module CrlfLines {
  import opened Basics
  import opened Bytes

  /** The length of the first line, its CR LF included; 0 when none is complete. */
  function LineLength(s: seq<Byte>): (n: nat)
    ensures n <= |s|
    ensures n > 0 ==> n >= 2 && s[n - 2] == 13 && s[n - 1] == 10
  {
    if |s| < 2 then 0
    else if s[0] == 13 && s[1] == 10 then 2
    else if LineLength(s[1..]) == 0 then 0
    else 1 + LineLength(s[1..])
  }

  /** The complete lines of a byte string, each with its CR LF. */
  function Lines(s: seq<Byte>): (r: seq<seq<Byte>>)
    decreases |s|
  {
    if LineLength(s) == 0 then [] else [s[..LineLength(s)]] + Lines(s[LineLength(s)..])
  }

  /** What is left after the last complete line. */
  function Remainder(s: seq<Byte>): (r: seq<Byte>)
    decreases |s|
  {
    if LineLength(s) == 0 then s else Remainder(s[LineLength(s)..])
  }

  lemma {:induction false} LineExtends(s: seq<Byte>, more: seq<Byte>)
    requires LineLength(s) > 0
    ensures LineLength(s + more) == LineLength(s)
  {
    if !(s[0] == 13 && s[1] == 10) {
      LineExtends(s[1..], more);
      assert (s + more)[1..] == s[1..] + more;
    }
  }

  /** A stream may be framed piecemeal: keep the remainder, append, frame again. */
  lemma {:induction false} LinesOfChunks(s: seq<Byte>, more: seq<Byte>)
    ensures Lines(s + more) == Lines(s) + Lines(Remainder(s) + more)
    ensures Remainder(s + more) == Remainder(Remainder(s) + more)
    decreases |s|
  {
    var n := LineLength(s);
    if n == 0 {
      assert Lines(s) == [];
    } else {
      LineExtends(s, more);
      var rest := s[n..];
      assert (s + more)[n..] == rest + more && (s + more)[..n] == s[..n];
      LinesOfChunks(rest, more);
      Regroup([s[..n]], Lines(rest), Lines(Remainder(rest) + more));
    }
  }

  ghost predicate NoBreak(s: seq<Byte>) {
    forall k | 0 <= k < |s| - 1 :: !(s[k] == 13 && s[k + 1] == 10)
  }

  lemma {:induction false} FirstBreak(s: seq<Byte>)
    ensures LineLength(s) == 0 ==> NoBreak(s)
    ensures LineLength(s) > 0 ==> NoBreak(s[..LineLength(s) - 1])
  {
    if |s| >= 2 && !(s[0] == 13 && s[1] == 10) {
      var t := s[1..];
      FirstBreak(t);
      forall k | 0 <= k < |s| - 1 && (LineLength(s) == 0 || k + 2 < LineLength(s))
        ensures !(s[k] == 13 && s[k + 1] == 10)
      {
        if k > 0 {
          var u := if LineLength(s) == 0 then t else t[..LineLength(t) - 1];
          assert u[k - 1] == s[k] && u[k] == s[k + 1];
        }
      }
    }
  }

  /** Each line ends in its first CR LF, and none is left behind: with `LinesJoin` below this
      says all there is to say of the framing. */
  lemma {:induction false} LinesEnd(s: seq<Byte>)
    ensures NoBreak(Remainder(s))
    ensures forall i | 0 <= i < |Lines(s)| ::
              var l := Lines(s)[i];
              |l| >= 2 && l[|l| - 2] == 13 && l[|l| - 1] == 10 && NoBreak(l[..|l| - 1])
    decreases |s|
  {
    FirstBreak(s);
    var n := LineLength(s);
    if n > 0 {
      LinesEnd(s[n..]);
      assert s[..n][..n - 1] == s[..n - 1];
    }
  }

  /** Nothing is lost or moved: the lines and the remainder are the stream. */
  lemma {:induction false} LinesJoin(s: seq<Byte>)
    ensures Flatten(Lines(s)) + Remainder(s) == s
    decreases |s|
  {
    var n := LineLength(s);
    if n == 0 {
      assert Flatten(Lines(s)) == [] && [] + s == s;
    } else {
      LinesJoin(s[n..]);
      JoinLine(s[..n], Lines(s[n..]), Remainder(s[n..]));
      CutJoin(s, n);
    }
  }

  lemma JoinLine(line: seq<Byte>, lines: seq<seq<Byte>>, rest: seq<Byte>)
    ensures Flatten([line] + lines) + rest == line + (Flatten(lines) + rest)
  {
    assert ([line] + lines)[1..] == lines;
    assert line + Flatten(lines) + rest == line + (Flatten(lines) + rest);
  }
}
