/** The functions of Go's `strings` package that the two plugins call, on strings of
    Unicode scalar values: strings.Title, strings.Replace with a one-character pattern
    replaced everywhere, and strings.Split with a one-character separator (with Join,
    its inverse). */
module GoStrings {

  /** ASCII letters, digits and the underscore: the ASCII runes that do not end a word. */
  predicate IsAsciiWordChar(c: char) {
    ('0' <= c <= '9') || ('a' <= c <= 'z') || ('A' <= c <= 'Z') || c == '_'
  }

  /** unicode.IsSpace outside ASCII: U+0085, U+00A0 and the White_Space runes above Latin-1. */
  predicate IsNonAsciiSpace(c: char) {
    var n := c as int;
    n == 0x85 || n == 0xA0 || n == 0x1680 || (0x2000 <= n <= 0x200A)
    || n == 0x2028 || n == 0x2029 || n == 0x202F || n == 0x205F || n == 0x3000
  }

  /** The word-boundary test of strings.Title: every ASCII rune except letters, digits and
      `_`; above ASCII, letters and digits are not separators and spaces are. */
  predicate IsSeparator(c: char) {
    if c as int <= 0x7F then !IsAsciiWordChar(c) else IsNonAsciiSpace(c)
  }

  /** unicode.ToTitle on ASCII: lower-case letters become upper-case, all else is kept. */
  function ToTitle(c: char): (r: char)
    ensures 'a' <= c <= 'z' ==> 'A' <= r <= 'Z' && r as int + 32 == c as int
    ensures !('a' <= c <= 'z') ==> r == c
  {
    if 'a' <= c <= 'z' then (c as int - 32) as char else c
  }

  /** strings.Title: each rune that follows a separator is title-cased; the rune before the
      first one counts as a space. */
  function Title(s: string): string {
    TitleAfter(' ', s)
  }

  /** strings.Title's mapping loop, with the previously seen rune. */
  function TitleAfter(prev: char, s: string): (r: string)
    ensures |r| == |s|
    decreases |s|
  {
    if s == [] then []
    else [if IsSeparator(prev) then ToTitle(s[0]) else s[0]] + TitleAfter(s[0], s[1..])
  }

  lemma {:induction false} TitleAfterAt(prev: char, s: string, i: nat)
    requires i < |s|
    ensures TitleAfter(prev, s)[i]
            == if IsSeparator(if i == 0 then prev else s[i - 1]) then ToTitle(s[i]) else s[i]
    decreases |s|
  {
    if i > 0 {
      TitleAfterAt(s[0], s[1..], i - 1);
    }
  }

  /** Rune i of strings.Title(s) is title-cased exactly when it starts the string or
      follows a separator; the length never changes. */
  lemma TitleAt(s: string, i: nat)
    requires i < |s|
    ensures |Title(s)| == |s|
    ensures Title(s)[i] == if i == 0 || IsSeparator(s[i - 1]) then ToTitle(s[i]) else s[i]
  {
    TitleAfterAt(' ', s, i);
  }

  /** strings.Replace(s, [from], [to], -1): every occurrence of `from` becomes `to`. */
  function Replace(s: string, from: char, to: char): (r: string)
    ensures |r| == |s|
    ensures forall i :: 0 <= i < |s| ==> r[i] == if s[i] == from then to else s[i]
    decreases |s|
  {
    if s == [] then []
    else [if s[0] == from then to else s[0]] + Replace(s[1..], from, to)
  }

  /** strings.Split(s, [sep]): the pieces between occurrences of `sep`; always at least one
      piece, the empty string giving [""]. */
  function Split(s: string, sep: char): (r: seq<string>)
    ensures |r| >= 1
    ensures forall k :: 0 <= k < |r| ==> sep !in r[k]
    decreases |s|
  {
    if s == [] then [""]
    else
      var rest := Split(s[1..], sep);
      if s[0] == sep then [""] + rest
      else [[s[0]] + rest[0]] + rest[1..]
  }

  /** strings.Join(parts, [sep]). */
  function Join(parts: seq<string>, sep: char): string
    requires |parts| >= 1
    decreases |parts|
  {
    if |parts| == 1 then parts[0] else parts[0] + [sep] + Join(parts[1..], sep)
  }

  /** Joining the pieces of a split with the same separator gives the string back. */
  lemma {:induction false} JoinSplit(s: string, sep: char)
    ensures Join(Split(s, sep), sep) == s
    decreases |s|
  {
    if s != [] {
      JoinSplit(s[1..], sep);
      var rest := Split(s[1..], sep);
      if s[0] == sep {
        assert Split(s, sep)[1..] == rest;
      } else if |rest| == 1 {
        assert Split(s, sep) == [[s[0]] + rest[0]];
      } else {
        assert Split(s, sep)[1..] == rest[1..];
        assert Join(rest, sep) == rest[0] + [sep] + Join(rest[1..], sep);
      }
    }
  }

  /** Splitting a string that starts with a separator-free piece `a`: `a` is glued to the
      front of the first piece of the rest. */
  lemma {:induction false} SplitPrefix(a: string, rest: string, sep: char)
    requires sep !in a
    ensures Split(a + rest, sep) == [a + Split(rest, sep)[0]] + Split(rest, sep)[1..]
    decreases |a|
  {
    if a != [] {
      assert (a + rest)[1..] == a[1..] + rest;
      SplitPrefix(a[1..], rest, sep);
      assert [a[0]] + (a[1..] + Split(rest, sep)[0]) == a + Split(rest, sep)[0];
    } else {
      var pieces := Split(rest, sep);
      assert a + rest == rest && a + pieces[0] == pieces[0];
      assert pieces == [pieces[0]] + pieces[1..];
    }
  }

  /** Splitting a join of separator-free pieces gives the pieces back. */
  lemma {:induction false} SplitJoin(parts: seq<string>, sep: char)
    requires |parts| >= 1
    requires forall k :: 0 <= k < |parts| ==> sep !in parts[k]
    ensures Split(Join(parts, sep), sep) == parts
    decreases |parts|
  {
    if |parts| == 1 {
      SplitPrefix(parts[0], [], sep);
      assert parts[0] + [] == parts[0];
    } else {
      var tail := Join(parts[1..], sep);
      SplitJoin(parts[1..], sep);
      assert parts[0] + [sep] + tail == parts[0] + ([sep] + tail);
      SplitPrefix(parts[0], [sep] + tail, sep);
      assert ([sep] + tail)[1..] == tail;
      assert Split([sep] + tail, sep) == [""] + parts[1..];
      assert parts[0] + "" == parts[0];
    }
  }
}
