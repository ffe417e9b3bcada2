/** Characters and strings shared by both workflows: the digit class that `\d`
    matches, the `name;value` CSV row, and `sep.join(parts)` together with the
    split that undoes it. */
module Text {

  /** A decimal digit. `\d` is modelled on ASCII digits only. */
  predicate IsDigit(c: char) {
    '0' <= c <= '9'
  }

  /** The digits are exactly the ten characters `0` to `9`. */
  lemma DigitClass(c: char)
    ensures IsDigit(c) <==> c in "0123456789"
  {
  }

  predicate AllDigits(s: string) {
    forall i :: 0 <= i < |s| ==> IsDigit(s[i])
  }

  predicate NoDigits(s: string) {
    forall i :: 0 <= i < |s| ==> !IsDigit(s[i])
  }

  /** One CSV row, `f"{name};{value}"`. A reader splitting the row at `;`
      gets the name as the first field and the fields of the value after it,
      when the name holds no `;`. */
  function Line(name: string, value: string): (line: string)
    ensures |line| == |name| + 1 + |value|
    ensures line[..|name|] == name && line[|name|] == ';' && line[|name| + 1..] == value
    ensures ';' !in name ==> Split(line, ';') == [name] + Split(value, ';')
  {
    var tail := ";" + value;
    assert name + ";" + value == name + tail;
    if ';' in name then name + tail
    else
      SplitPrefix(name, tail, ';');
      assert tail[0] == ';' && tail[1..] == value;
      assert Split(tail, ';') == [""] + Split(value, ';');
      assert name + "" == name;
      name + tail
  }

  /** All the parts put together, with nothing between them. */
  function Concat(parts: seq<string>): string
    decreases |parts|
  {
    if parts == [] then [] else parts[0] + Concat(parts[1..])
  }

  /** `sep.join(parts)` for a one-character separator: the parts, in order,
      with one separator between each two. */
  function Join(sep: char, parts: seq<string>): (r: string)
    ensures |parts| > 0 ==> |r| == |Concat(parts)| + |parts| - 1
    decreases |parts|
  {
    if |parts| == 0 then ""
    else if |parts| == 1 then parts[0]
    else parts[0] + [sep] + Join(sep, parts[1..])
  }

  /** `s.split(sep)`: the pieces between separators; the empty string gives one
      empty piece. */
  function Split(s: string, sep: char): (pieces: seq<string>)
    ensures |pieces| >= 1
    ensures forall j :: 0 <= j < |pieces| ==> sep !in pieces[j]
    decreases |s|
  {
    if s == [] then [""]
    else
      var rest := Split(s[1..], sep);
      if s[0] == sep then [""] + rest
      else [[s[0]] + rest[0]] + rest[1..]
  }

  lemma JoinCons(sep: char, x: string, parts: seq<string>)
    ensures Join(sep, [x] + parts) == if parts == [] then x else x + [sep] + Join(sep, parts)
  {
    assert ([x] + parts)[1..] == parts;
  }

  /** A character that is neither the separator nor in any part is not in the
      joined string. */
  lemma {:induction false} JoinAvoids(sep: char, parts: seq<string>, c: char)
    requires c != sep
    requires forall j :: 0 <= j < |parts| ==> c !in parts[j]
    ensures c !in Join(sep, parts)
    decreases |parts|
  {
    if |parts| > 1 {
      JoinAvoids(sep, parts[1..], c);
    }
  }

  lemma {:induction false} SplitPrefix(p: string, t: string, sep: char)
    requires sep !in p
    ensures Split(p + t, sep) == [p + Split(t, sep)[0]] + Split(t, sep)[1..]
    decreases |p|
  {
    if p == [] {
      var pieces := Split(t, sep);
      assert p + t == t && p + pieces[0] == pieces[0];
      assert pieces == [pieces[0]] + pieces[1..];
    } else {
      SplitPrefix(p[1..], t, sep);
      assert (p + t)[1..] == p[1..] + t;
      assert [p[0]] + (p[1..] + Split(t, sep)[0]) == p + Split(t, sep)[0];
    }
  }

  /** Splitting a joined list gives the list back when no part contains the
      separator. */
  lemma {:induction false} SplitJoin(sep: char, parts: seq<string>)
    requires |parts| > 0
    requires forall j :: 0 <= j < |parts| ==> sep !in parts[j]
    ensures Split(Join(sep, parts), sep) == parts
    decreases |parts|
  {
    if |parts| == 1 {
      SplitPrefix(parts[0], "", sep);
      assert parts[0] + "" == parts[0];
    } else {
      var tail := Join(sep, parts[1..]);
      SplitJoin(sep, parts[1..]);
      SplitPrefix(parts[0], [sep] + tail, sep);
      assert ([sep] + tail)[1..] == tail;
      assert parts[0] + [sep] + tail == parts[0] + ([sep] + tail);
      assert Split([sep] + tail, sep) == [""] + parts[1..];
      assert parts[0] + "" == parts[0];
      assert parts == [parts[0]] + parts[1..];
    }
  }

  lemma JoinGrowFirst(sep: char, c: char, parts: seq<string>)
    requires |parts| >= 1
    ensures Join(sep, [[c] + parts[0]] + parts[1..]) == [c] + Join(sep, parts)
  {
    JoinCons(sep, [c] + parts[0], parts[1..]);
    JoinCons(sep, parts[0], parts[1..]);
    assert parts == [parts[0]] + parts[1..];
  }

  /** Joining the pieces of a split gives the string back. */
  lemma {:induction false} JoinSplit(s: string, sep: char)
    ensures Join(sep, Split(s, sep)) == s
    decreases |s|
  {
    if s != [] {
      var rest := Split(s[1..], sep);
      JoinSplit(s[1..], sep);
      assert s == [s[0]] + s[1..];
      if s[0] == sep {
        assert Split(s, sep) == [""] + rest;
        JoinCons(sep, "", rest);
      } else {
        assert Split(s, sep) == [[s[0]] + rest[0]] + rest[1..];
        JoinGrowFirst(sep, s[0], rest);
      }
    }
  }
}
