/** Calendar entries: a plain value with five text fields, and the one-line
    text the calendar screen shows for it. */
module Events {

  /** One calendar entry. `date` and `time` are opaque text: nothing parses
      or checks them. */
  datatype Event = Event(title: string, date: string, time: string, category: string, description: string)

  /** The listing line `date | time | title (category)`; the description is
      not shown. */
  function Display(e: Event): (line: string)
    ensures |line| == |e.date| + |e.time| + |e.title| + |e.category| + 9
    ensures line[..|e.date|] == e.date
    ensures line[|e.date|..|e.date| + 3] == " | "
    ensures line[|line| - |e.category| - 3..] == " (" + e.category + ")"
  {
    e.date + " | " + e.time + " | " + e.title + " (" + e.category + ")"
  }

  /** Two entries that differ only in their description show the same line. */
  lemma DisplayIgnoresDescription(e: Event, description: string)
    ensures Display(e.(description := description)) == Display(e)
  {
  }

  /** The longest prefix of `s` in which `c` does not occur. */
  function TakeUntil(s: string, c: char): (p: string)
    ensures |p| <= |s| && p == s[..|p|]
    ensures c !in p
    ensures |p| < |s| ==> s[|p|] == c
  {
    if s == [] || s[0] == c then [] else [s[0]] + TakeUntil(s[1..], c)
  }

  /** Reading a line up to the first `|` passes over a prefix free of `|`. */
  lemma {:induction false} TakeUntilAppend(a: string, b: string, c: char)
    requires c !in a
    ensures TakeUntil(a + b, c) == a + TakeUntil(b, c)
  {
    if a != [] {
      assert (a + b)[0] == a[0] != c;
      assert (a + b)[1..] == a[1..] + b;
      TakeUntilAppend(a[1..], b, c);
      assert a == [a[0]] + a[1..];
    } else {
      assert a + b == b;
    }
  }

  /** The date read back from a listing line: the text before the first `|`,
      without the blank that separates it from the bar. */
  function DateOf(line: string): (date: string)
    ensures date <= line
    ensures '|' !in date
  {
    var p := TakeUntil(line, '|');
    if p == [] then p else p[..|p| - 1]
  }

  /** The listing line determines the entry's date whenever the date itself
      contains no `|`. */
  lemma DateOfDisplay(e: Event)
    requires '|' !in e.date
    ensures DateOf(Display(e)) == e.date
  {
    var rest := "| " + e.time + " | " + e.title + " (" + e.category + ")";
    assert Display(e) == (e.date + " ") + rest;
    assert '|' !in e.date + " ";
    TakeUntilAppend(e.date + " ", rest, '|');
  }
}
