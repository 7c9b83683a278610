/**
 * A library member and its record line `memberId|name|contact`.
 */
module Members {
  import opened Wrappers
  import opened Text
  import opened Escaping

  /** A member: key memberId (compared ignoring case by the service). */
  datatype Member = Member(memberId: string, name: string, contact: string)

  /** No field holds the delimiter: the condition under which a member line round-trips. */
  predicate BarFree(m: Member)
  {
    NoBar(m.memberId) && NoBar(m.name) && NoBar(m.contact)
  }

  /** No field holds a line terminator: the condition under which the line survives the file. */
  predicate BreakFree(m: Member)
  {
    OneLine(m.memberId) && OneLine(m.name) && OneLine(m.contact)
  }

  /** toFileString: the three escaped fields, in the order id, name, contact, joined by '|'. */
  function ToFileString(m: Member): (line: string)
    ensures Bar in line && !IsBlank(line)
    ensures BreakFree(m) ==> OneLine(line)
    ensures BarFree(m) ==> Split(line) == [Escape(m.memberId), Escape(m.name), Escape(m.contact)]
  {
    FieldsOneLine(m);
    var fields := [Escape(m.memberId), Escape(m.name), Escape(m.contact)];
    JoinCons(fields[0], fields[1..]);
    assert Join(fields)[|fields[0]|] == Bar;
    if BarFree(m) then
      EscapeNoBar(m.memberId);
      EscapeNoBar(m.name);
      EscapeNoBar(m.contact);
      SplitJoin(fields);
      Join(fields)
    else
      Join(fields)
  }

  /** Escaping adds no line terminator. */
  lemma FieldsOneLine(m: Member)
    ensures BreakFree(m) ==> OneLine(Join([Escape(m.memberId), Escape(m.name), Escape(m.contact)]))
  {
    if BreakFree(m) {
      OneLineJoinThree(Escape(m.memberId), Escape(m.name), Escape(m.contact));
    }
  }

  /**
   * fromFileString: None (null) when the line has fewer than three fields;
   * otherwise the first three fields unescaped, any further fields ignored.
   */
  function FromFileString(line: string): (r: Option<Member>)
    ensures r.None? <==> BarCount(line) < 2
  {
    var parts := Split(line);
    if |parts| < 3 then None
    else Some(Member(Unescape(parts[0]), Unescape(parts[1]), Unescape(parts[2])))
  }

  /**
   * How the split sees the line of any member: the escaped id, name and
   * contact, each cut at every bar it holds.
   */
  lemma LineFields(m: Member)
    ensures Split(ToFileString(m))
            == Split(Escape(m.memberId)) + (Split(Escape(m.name)) + Split(Escape(m.contact)))
  {
    SplitJoinedThree(Escape(m.memberId), Escape(m.name), Escape(m.contact));
  }

  /** Fields after the third are ignored. */
  lemma ExtraFieldsIgnored(line: string, extra: string)
    requires BarCount(line) >= 2
    ensures FromFileString(line + [Bar] + extra) == FromFileString(line)
  {
    SplitAppendBar(line, extra);
  }

  /** A member none of whose fields holds '|' is read back exactly as it was written. */
  lemma RoundTrip(m: Member)
    requires BarFree(m)
    ensures FromFileString(ToFileString(m)) == Some(m)
  {
    UnescapeEscape(m.memberId);
    UnescapeEscape(m.name);
    UnescapeEscape(m.contact);
  }

  /**
   * A name `a|b` does not survive: the split cuts between the escaping
   * backslash and the bar, unescape drops that backslash, so the name comes
   * back as `a` and the contact as `b`.
   */
  lemma BarInNameIsLost(id: string, a: string, b: string, contact: string)
    requires NoBar(id) && NoBar(a) && NoBar(b) && NoBar(contact)
    ensures FromFileString(ToFileString(Member(id, a + [Bar] + b, contact))) == Some(Member(id, a, b))
  {
    NameWithBarSplits(id, a, b, contact);
    UnescapeEscape(id);
    UnescapeTrailingBackslash(a);
    UnescapeEscape(b);
  }

  /** The pieces the split sees when the name is `a|b`. */
  lemma NameWithBarSplits(id: string, a: string, b: string, contact: string)
    requires NoBar(id) && NoBar(a) && NoBar(b) && NoBar(contact)
    ensures Split(ToFileString(Member(id, a + [Bar] + b, contact)))
            == [Escape(id), Escape(a) + [Backslash], Escape(b), Escape(contact)]
  {
    LineFields(Member(id, a + [Bar] + b, contact));
    EscapeNoBar(id);
    EscapeNoBar(a);
    EscapeNoBar(b);
    EscapeNoBar(contact);
    EscapeWithBar(a, b);
    PiecesWithOneBar(Escape(id), Escape(a) + [Backslash], Escape(b), Escape(contact));
  }

  /** The split of three fields the second of which holds one bar. */
  lemma PiecesWithOneBar(w: string, x: string, y: string, z: string)
    requires NoBar(w) && NoBar(x) && NoBar(y) && NoBar(z)
    ensures Split(w) + (Split(x + [Bar] + y) + Split(z)) == [w, x, y, z]
  {
    SplitNoBar(w);
    SplitNoBar(z);
    SplitAtBar(x, y);
    SplitNoBar(y);
  }
}
