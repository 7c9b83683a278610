/**
 * The field escaping shared by Book, Member and Loan (each class carries an
 * identical private copy): `escape` doubles every backslash and puts a
 * backslash before every '|'; `unescape` is a one-flag state machine that
 * keeps the character after each backslash and drops a lone trailing one.
 */
module Escaping {
  import opened Text

  const Backslash: char := '\\'

  /** String.replace with a one-character target: every occurrence of c becomes rep. */
  function ReplaceChar(s: string, c: char, rep: string): (r: string)
    ensures c !in rep ==> c !in r
  {
    if s == [] then [] else (if s[0] == c then rep else [s[0]]) + ReplaceChar(s[1..], c, rep)
  }

  /** A character found neither in s nor in the replacement is not in the result. */
  lemma {:induction false} ReplaceCharAbsent(s: string, c: char, rep: string, x: char)
    requires x !in s && x !in rep
    ensures x !in ReplaceChar(s, c, rep)
  {
    if s != [] {
      assert x !in s[1..];
      ReplaceCharAbsent(s[1..], c, rep, x);
    }
  }

  /** s.replace("\\", "\\\\").replace("|", "\\|"), in that order. */
  function Escape(s: string): (r: string)
    ensures OneLine(s) ==> OneLine(r)
  {
    var once := ReplaceChar(s, Backslash, [Backslash, Backslash]);
    if OneLine(s) then
      ReplaceCharAbsent(s, Backslash, [Backslash, Backslash], '\n');
      ReplaceCharAbsent(s, Backslash, [Backslash, Backslash], '\r');
      ReplaceCharAbsent(once, Bar, [Backslash, Bar], '\n');
      ReplaceCharAbsent(once, Bar, [Backslash, Bar], '\r');
      ReplaceChar(once, Bar, [Backslash, Bar])
    else
      ReplaceChar(once, Bar, [Backslash, Bar])
  }

  /** What one character of the input becomes in the escaped text. */
  function EscapeChar(c: char): string
  {
    if c == Backslash then [Backslash, Backslash]
    else if c == Bar then [Backslash, Bar]
    else [c]
  }

  /**
   * Reference reading of unescape: a backslash and the character after it
   * give that character; a backslash with nothing after it gives nothing.
   */
  function Unescape(s: string): (r: string)
    ensures |r| <= |s|
  {
    if s == [] then []
    else if s[0] == Backslash then (if |s| == 1 then [] else [s[1]] + Unescape(s[2..]))
    else [s[0]] + Unescape(s[1..])
  }

  /** A field with no backslash reads back unchanged. */
  lemma {:induction false} UnescapePlain(s: string)
    requires Backslash !in s
    ensures Unescape(s) == s
  {
    if s != [] {
      assert Backslash !in s[1..];
      UnescapePlain(s[1..]);
    }
  }

  lemma {:induction false} ReplaceCharAppend(a: string, b: string, c: char, rep: string)
    ensures ReplaceChar(a + b, c, rep) == ReplaceChar(a, c, rep) + ReplaceChar(b, c, rep)
  {
    if a != [] {
      assert (a + b)[0] == a[0];
      assert (a + b)[1..] == a[1..] + b;
      ReplaceCharAppend(a[1..], b, c, rep);
    } else {
      assert a + b == b;
    }
  }

  /** The two whole-string replacements act character by character. */
  lemma EscapeCons(c: char, t: string)
    ensures Escape([c] + t) == EscapeChar(c) + Escape(t)
  {
    var once := ReplaceChar([c] + t, Backslash, [Backslash, Backslash]);
    ReplaceCharAppend([c], t, Backslash, [Backslash, Backslash]);
    var head := ReplaceChar([c], Backslash, [Backslash, Backslash]);
    assert head == if c == Backslash then [Backslash, Backslash] else [c];
    ReplaceCharAppend(head, ReplaceChar(t, Backslash, [Backslash, Backslash]), Bar, [Backslash, Bar]);
    if c == Backslash {
      assert ReplaceChar(head, Bar, [Backslash, Bar]) == [Backslash, Backslash];
    } else {
      assert ReplaceChar(head, Bar, [Backslash, Bar]) == EscapeChar(c);
    }
  }

  /** Escaping distributes over concatenation. */
  lemma EscapeAppend(a: string, b: string)
    ensures Escape(a + b) == Escape(a) + Escape(b)
  {
    ReplaceCharAppend(a, b, Backslash, [Backslash, Backslash]);
    ReplaceCharAppend(ReplaceChar(a, Backslash, [Backslash, Backslash]), ReplaceChar(b, Backslash, [Backslash, Backslash]), Bar, [Backslash, Bar]);
  }

  /** Escaping a field `a|b`: the halves escaped, with a backslash put before the bar. */
  lemma EscapeWithBar(a: string, b: string)
    ensures Escape(a + [Bar] + b) == (Escape(a) + [Backslash]) + [Bar] + Escape(b)
  {
    assert Escape([Bar]) == [Backslash, Bar] by {
      EscapeCons(Bar, []);
      assert [Bar] == [Bar] + [];
      assert Escape([]) == [];
    }
    EscapeAppend(a, [Bar]);
    EscapeAppend(a + [Bar], b);
  }

  /** Unescaping undoes escaping, for every string, backslashes and bars included. */
  lemma {:induction false} UnescapeEscape(s: string)
    ensures Unescape(Escape(s)) == s
  {
    if s == [] {
      assert Escape(s) == [];
    } else {
      var t := s[1..];
      assert s == [s[0]] + t;
      EscapeCons(s[0], t);
      UnescapeEscape(t);
      var e := EscapeChar(s[0]) + Escape(t);
      if s[0] == Backslash || s[0] == Bar {
        assert e[0] == Backslash && e[1] == s[0] && e[2..] == Escape(t);
      } else {
        assert e[0] == s[0] && e[1..] == Escape(t);
      }
    }
  }

  /**
   * A backslash followed by any character yields that character, and a lone
   * backslash at the end of an escaped field is dropped.
   */
  lemma {:induction false} UnescapeTrailingBackslash(s: string)
    ensures Unescape(Escape(s) + [Backslash]) == s
  {
    if s == [] {
      assert Escape(s) + [Backslash] == [Backslash];
    } else {
      var t := s[1..];
      assert s == [s[0]] + t;
      EscapeCons(s[0], t);
      UnescapeTrailingBackslash(t);
      var rest := Escape(t) + [Backslash];
      assert Escape(s) + [Backslash] == EscapeChar(s[0]) + rest;
      if s[0] == Backslash || s[0] == Bar {
        UnescapeStep([s[0]] + rest);
        assert [Backslash] + ([s[0]] + rest) == EscapeChar(s[0]) + rest;
        assert ([s[0]] + rest)[1..] == rest;
      } else {
        UnescapeStep([s[0]] + rest);
        assert [s[0]] + rest == EscapeChar(s[0]) + rest;
        assert ([s[0]] + rest)[1..] == rest;
      }
    }
  }

  /** Escaping introduces a delimiter exactly where the field already had one. */
  lemma {:induction false} EscapeNoBar(s: string)
    ensures NoBar(Escape(s)) <==> NoBar(s)
  {
    if s == [] {
      assert Escape(s) == [];
    } else {
      var t := s[1..];
      assert s == [s[0]] + t;
      EscapeCons(s[0], t);
      EscapeNoBar(t);
      assert Bar in s <==> s[0] == Bar || Bar in t;
      assert Bar in Escape(s) <==> Bar in EscapeChar(s[0]) || Bar in Escape(t);
    }
  }

  /** One step of the state machine over a non-empty rest t, in either state. */
  lemma UnescapeStep(t: string)
    requires t != []
    ensures Unescape([Backslash] + t) == [t[0]] + Unescape(t[1..])
    ensures t[0] != Backslash ==> Unescape(t) == [t[0]] + Unescape(t[1..])
    ensures t[0] == Backslash ==> Unescape(t) == Unescape([Backslash] + t[1..])
  {
    assert ([Backslash] + t)[2..] == t[1..];
    if t[0] == Backslash {
      assert t == [Backslash] + t[1..];
    }
  }

  /**
   * The invariant of the unescape loop: what has been appended so far,
   * followed by the reading of what is left (with the pending backslash when
   * the flag is set), is the reading of the whole field.
   */
  predicate Pending(s: string, i: nat, escaping: bool, out: string)
    requires i <= |s|
  {
    out + Unescape(if escaping then [Backslash] + s[i..] else s[i..]) == Unescape(s)
  }

  /** One iteration of the loop keeps the invariant, in each of its three branches. */
  lemma PendingStep(s: string, i: nat, escaping: bool, out: string)
    requires i < |s| && Pending(s, i, escaping, out)
    ensures escaping ==> Pending(s, i + 1, false, out + [s[i]])
    ensures !escaping && s[i] == Backslash ==> Pending(s, i + 1, true, out)
    ensures !escaping && s[i] != Backslash ==> Pending(s, i + 1, false, out + [s[i]])
  {
    UnescapeStep(s[i..]);
    assert s[i..][1..] == s[i + 1..];
  }

  /**
   * unescape as the source runs it: one pass over the characters with an
   * `escaping` flag, appending to a builder.
   */
  method UnescapeField(s: string) returns (out: string)
    ensures out == Unescape(s)
  {
    out := [];
    var escaping := false;
    var i := 0;
    assert s[0..] == s;
    while i < |s|
      invariant 0 <= i <= |s|
      invariant Pending(s, i, escaping, out)
    {
      var c := s[i];
      PendingStep(s, i, escaping, out);
      if escaping {
        out := out + [c];
        escaping := false;
      } else if c == Backslash {
        escaping := true;
      } else {
        out := out + [c];
      }
      i := i + 1;
    }
    assert Unescape(if escaping then [Backslash] + s[i..] else s[i..]) == [];
  }
}
