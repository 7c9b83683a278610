/**
 * Character-level string operations the codec and the service rely on:
 * case folding (equalsIgnoreCase, toLowerCase, contains), the whitespace
 * test of trim().isEmpty(), and String.split on the field delimiter.
 */
module Text {

  /** The field delimiter of every record line. */
  const Bar: char := '|'

  /** Case folding of one character, restricted to ASCII letters. */
  function Fold(c: char): char
  {
    if 'A' <= c <= 'Z' then (c as int + 32) as char else c
  }

  /** toLowerCase: every character folded. */
  function ToLower(s: string): (r: string)
    ensures |r| == |s|
  {
    seq(|s|, i requires 0 <= i < |s| => Fold(s[i]))
  }

  /** equalsIgnoreCase: equal once both sides are folded. */
  predicate EqualsIgnoreCase(a: string, b: string)
    ensures EqualsIgnoreCase(a, b) ==> |a| == |b|
    ensures a == b ==> EqualsIgnoreCase(a, b)
  {
    ToLower(a) == ToLower(b)
  }

  /** String.contains: `part` occurs at some position of `s` (the empty part occurs everywhere). */
  predicate Contains(s: string, part: string)
    ensures Contains(s, part) ==> |part| <= |s|
    ensures part <= s ==> Contains(s, part)
  {
    assert s[0..] == s;
    exists i :: 0 <= i <= |s| && part <= s[i..]
  }

  /** trim().isEmpty(): every character is at or below U+0020. */
  predicate IsBlank(s: string)
    ensures s == [] ==> IsBlank(s)
    ensures IsBlank(s) ==> Bar !in s
  {
    forall i :: 0 <= i < |s| ==> s[i] <= ' '
  }

  predicate NoBar(s: string)
  {
    Bar !in s
  }

  /** A line terminator as BufferedReader.readLine recognises it. */
  predicate IsLineBreak(c: char)
  {
    c == '\n' || c == '\r'
  }

  /** Text that readLine gives back as one line: no terminator inside. */
  predicate OneLine(s: string)
  {
    '\n' !in s && '\r' !in s
  }

  /** Number of delimiters in s. */
  function BarCount(s: string): nat
  {
    if s == [] then 0 else (if s[0] == Bar then 1 else 0) + BarCount(s[1..])
  }

  /**
   * line.split("\\|", -1): the pieces between consecutive delimiters, cutting at
   * every '|' (escaped or not) and keeping empty pieces, trailing ones included.
   */
  function Split(s: string): (parts: seq<string>)
    ensures |parts| == BarCount(s) + 1
    ensures forall k :: 0 <= k < |parts| ==> NoBar(parts[k])
  {
    if s == [] then [""]
    else
      var rest := Split(s[1..]);
      if s[0] == Bar then [""] + rest
      else [[s[0]] + rest[0]] + rest[1..]
  }

  /** The inverse of Split: the pieces glued back with '|' between them. */
  function Join(parts: seq<string>): (line: string)
    requires |parts| > 0
    ensures |line| >= |parts| - 1
    ensures |parts| > 1 ==> Bar in line
  {
    if |parts| == 1 then parts[0] else parts[0] + [Bar] + Join(parts[1..])
  }

  lemma JoinCons(p: string, rest: seq<string>)
    requires |rest| > 0
    ensures Join([p] + rest) == p + [Bar] + Join(rest)
  {
    assert ([p] + rest)[1..] == rest;
  }

  /** The joined line of three, four and five fields, written out. */
  lemma JoinThree(a: string, b: string, c: string)
    ensures Join([a, b, c]) == a + [Bar] + (b + [Bar] + c)
  {
    assert [a, b, c] == [a] + [b, c];
    JoinCons(a, [b, c]);
    assert [b, c] == [b] + [c];
    JoinCons(b, [c]);
  }

  lemma JoinFour(a: string, b: string, c: string, d: string)
    ensures Join([a, b, c, d]) == a + [Bar] + (b + [Bar] + (c + [Bar] + d))
  {
    assert [a, b, c, d] == [a] + [b, c, d];
    JoinCons(a, [b, c, d]);
    JoinThree(b, c, d);
  }

  lemma JoinFive(a: string, b: string, c: string, d: string, e: string)
    ensures Join([a, b, c, d, e]) == a + [Bar] + (b + [Bar] + (c + [Bar] + (d + [Bar] + e)))
  {
    assert [a, b, c, d, e] == [a] + [b, c, d, e];
    JoinCons(a, [b, c, d, e]);
    JoinFour(b, c, d, e);
  }

  /** Joining one-line fields gives one line: the delimiter is no terminator. */
  lemma OneLineJoinThree(a: string, b: string, c: string)
    requires OneLine(a) && OneLine(b) && OneLine(c)
    ensures OneLine(Join([a, b, c]))
  {
    JoinThree(a, b, c);
  }

  lemma OneLineJoinFour(a: string, b: string, c: string, d: string)
    requires OneLine(a) && OneLine(b) && OneLine(c) && OneLine(d)
    ensures OneLine(Join([a, b, c, d]))
  {
    JoinFour(a, b, c, d);
  }

  lemma OneLineJoinFive(a: string, b: string, c: string, d: string, e: string)
    requires OneLine(a) && OneLine(b) && OneLine(c) && OneLine(d) && OneLine(e)
    ensures OneLine(Join([a, b, c, d, e]))
  {
    JoinFive(a, b, c, d, e);
  }

  /** The split of a joined line is the splits of its fields, one after another. */
  lemma SplitJoinedThree(a: string, b: string, c: string)
    ensures Split(Join([a, b, c])) == Split(a) + (Split(b) + Split(c))
  {
    assert [a, b, c] == [a] + [b, c];
    SplitJoinedCons(a, [b, c]);
    assert [b, c] == [b] + [c];
    SplitJoinedCons(b, [c]);
  }

  lemma SplitJoinedFour(a: string, b: string, c: string, d: string)
    ensures Split(Join([a, b, c, d])) == Split(a) + (Split(b) + (Split(c) + Split(d)))
  {
    assert [a, b, c, d] == [a] + [b, c, d];
    SplitJoinedCons(a, [b, c, d]);
    SplitJoinedThree(b, c, d);
  }

  lemma SplitJoinedFive(a: string, b: string, c: string, d: string, e: string)
    ensures Split(Join([a, b, c, d, e])) == Split(a) + (Split(b) + (Split(c) + (Split(d) + Split(e))))
  {
    assert [a, b, c, d, e] == [a] + [b, c, d, e];
    SplitJoinedCons(a, [b, c, d, e]);
    SplitJoinedFour(b, c, d, e);
  }

  /** Splitting a joined line peels off the split of its first field. */
  lemma SplitJoinedCons(p: string, rest: seq<string>)
    requires |rest| > 0
    ensures Split(Join([p] + rest)) == Split(p) + Split(Join(rest))
  {
    JoinCons(p, rest);
    SplitAppendBar(p, Join(rest));
  }

  /** Splitting a joined line of five delimiter-free fields gives the fields back. */
  lemma SplitJoinFive(a: string, b: string, c: string, d: string, e: string)
    requires NoBar(a) && NoBar(b) && NoBar(c) && NoBar(d) && NoBar(e)
    ensures Split(Join([a, b, c, d, e])) == [a, b, c, d, e]
  {
    SplitJoin([a, b, c, d, e]);
  }

  lemma {:induction false} SplitNoBar(s: string)
    requires NoBar(s)
    ensures Split(s) == [s]
  {
    if s != [] {
      SplitNoBar(s[1..]);
      assert [s[0]] + s[1..] == s;
    }
  }

  /** A delimiter after a delimiter-free prefix cuts exactly there. */
  lemma {:induction false} SplitAtBar(a: string, b: string)
    requires NoBar(a)
    ensures Split(a + [Bar] + b) == [a] + Split(b)
  {
    if a == [] {
      assert a + [Bar] + b == [Bar] + b;
      assert ([Bar] + b)[1..] == b;
    } else {
      var s := a + [Bar] + b;
      assert s[0] == a[0];
      assert s[1..] == a[1..] + [Bar] + b;
      SplitAtBar(a[1..], b);
      assert [a[0]] + a[1..] == a;
    }
  }

  /** A delimiter anywhere cuts the line into the pieces of either side. */
  lemma {:induction false} SplitAppendBar(a: string, b: string)
    ensures Split(a + [Bar] + b) == Split(a) + Split(b)
  {
    var s := a + [Bar] + b;
    if a == [] {
      assert s == [Bar] + b;
      assert s[1..] == b;
    } else {
      assert s[0] == a[0];
      assert s[1..] == a[1..] + [Bar] + b;
      SplitAppendBar(a[1..], b);
    }
  }

  /** Splitting the join of delimiter-free pieces gives the pieces back. */
  lemma {:induction false} SplitJoin(parts: seq<string>)
    requires |parts| > 0
    requires forall k :: 0 <= k < |parts| ==> NoBar(parts[k])
    ensures Split(Join(parts)) == parts
  {
    if |parts| == 1 {
      SplitNoBar(parts[0]);
    } else {
      SplitJoin(parts[1..]);
      SplitAtBar(parts[0], Join(parts[1..]));
      assert [parts[0]] + parts[1..] == parts;
    }
  }

  /** Joining the pieces of any line gives the line back. */
  lemma {:induction false} JoinSplit(s: string)
    ensures Join(Split(s)) == s
  {
    if s != [] {
      JoinSplit(s[1..]);
      var rest := Split(s[1..]);
      if s[0] == Bar {
        assert ([""] + rest)[1..] == rest;
        assert s == [Bar] + s[1..];
      } else {
        var parts := [[s[0]] + rest[0]] + rest[1..];
        if |rest| == 1 {
          assert s == [s[0]] + s[1..];
        } else {
          assert parts[1..] == rest[1..];
          assert Join(rest) == rest[0] + [Bar] + Join(rest[1..]);
          assert s == [s[0]] + s[1..];
        }
      }
    }
  }
}
