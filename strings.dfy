/** The handful of Python `str` operations the pipeline relies on: `strip()`,
    `split(sep)`, `sep.join(...)`, `split()` on whitespace, the substring test
    `sub in s`, `lower()` and `int()` on a column of digits. */
module Strings {
  import opened Results
  import opened Seqs

  /** Python's `str.isspace` for one code point (the characters Unicode gives
      the bidirectional class WS, B or S, or the category Zs). */
  predicate IsSpace(c: char) {
    var n := c as int;
    (9 <= n <= 13) || (28 <= n <= 32) || n == 0x85 || n == 0xA0 || n == 0x1680
    || (0x2000 <= n <= 0x200A) || n == 0x2028 || n == 0x2029 || n == 0x202F
    || n == 0x205F || n == 0x3000
  }

  // ---------------------------------------------------------------------------
  // strip()

  /** `s.lstrip()`: drop the leading whitespace. */
  function StripStart(s: string): (r: string)
    ensures |r| <= |s| && r == s[|s| - |r|..]
    ensures forall k :: 0 <= k < |s| - |r| ==> IsSpace(s[k])
    ensures r == [] || !IsSpace(r[0])
  {
    if s != [] && IsSpace(s[0]) then StripStart(s[1..]) else s
  }

  /** `s.rstrip()`: drop the trailing whitespace. */
  function StripEnd(s: string): (r: string)
    ensures |r| <= |s| && r == s[..|r|]
    ensures forall k :: |r| <= k < |s| ==> IsSpace(s[k])
    ensures r == [] || !IsSpace(r[|r| - 1])
  {
    if s != [] && IsSpace(s[|s| - 1]) then StripEnd(s[..|s| - 1]) else s
  }

  /** `s.strip()`: the slice of `s` left once whitespace is dropped at both
      ends; a string with no whitespace at either end is its own strip. */
  function Strip(s: string): (r: string)
    ensures r == [] || (!IsSpace(r[0]) && !IsSpace(r[|r| - 1]))
    ensures (s == [] || (!IsSpace(s[0]) && !IsSpace(s[|s| - 1]))) ==> r == s
    ensures |r| <= |s|
  {
    StripEnd(StripStart(s))
  }

  // ---------------------------------------------------------------------------
  // Occurrences, find and `in`

  /** Two strings that differ in their first character: neither starts the
      other (`startswith` is the sequence prefix `<=`). */
  lemma FirstCharDiffers(p: string, s: string)
    requires p != [] && s != [] && p[0] != s[0]
    ensures !(p <= s)
  {
  }

  /** `sep` occurs in `s` starting at index `i`. */
  predicate OccursAt(s: string, sep: string, i: nat) {
    i + |sep| <= |s| && s[i..i + |sep|] == sep
  }

  /** `s.find(sep)`: the first index at which `sep` occurs, if any. */
  function IndexOf(s: string, sep: string): Option<nat>
    decreases |s|
  {
    if |s| < |sep| then None
    else if s[..|sep|] == sep then Some(0)
    else
      match IndexOf(s[1..], sep)
      case None => None
      case Some(i) => Some(i + 1)
  }

  /** `find` returns the first occurrence, and nothing exactly when there
      is none. */
  lemma {:induction false} IndexOfSpec(s: string, sep: string)
    ensures IndexOf(s, sep).Some? ==> OccursAt(s, sep, IndexOf(s, sep).value)
    ensures IndexOf(s, sep).Some? ==>
              forall j :: 0 <= j < IndexOf(s, sep).value ==> !OccursAt(s, sep, j)
    ensures IndexOf(s, sep).None? ==> forall j :: 0 <= j ==> !OccursAt(s, sep, j)
    decreases |s|
  {
    if |s| >= |sep| && s[..|sep|] != sep {
      assert !OccursAt(s, sep, 0);
      ShiftOccurrence(s, sep);
      IndexOfSpec(s[1..], sep);
    }
  }

  /** Where `find` answers, `sep` does occur. */
  lemma IndexOfFound(s: string, sep: string)
    requires IndexOf(s, sep).Some?
    ensures OccursAt(s, sep, IndexOf(s, sep).value)
  {
    IndexOfSpec(s, sep);
  }

  /** Occurrences in `s[1..]` are the occurrences in `s` moved one to the left. */
  lemma ShiftOccurrence(s: string, sep: string)
    requires s != []
    ensures forall j: nat :: 1 <= j ==> (OccursAt(s, sep, j) <==> OccursAt(s[1..], sep, j - 1))
  {
    forall j: nat | 1 <= j
      ensures OccursAt(s, sep, j) <==> OccursAt(s[1..], sep, j - 1)
    {
      if j + |sep| <= |s| {
        assert s[1..][j - 1..j - 1 + |sep|] == s[j..j + |sep|];
      }
    }
  }

  /** Python's `sub in s`. */
  predicate Contains(s: string, sub: string) {
    IndexOf(s, sub).Some?
  }

  lemma ContainsIff(s: string, sub: string)
    ensures Contains(s, sub) <==> exists i: nat :: OccursAt(s, sub, i)
  {
    IndexOfSpec(s, sub);
  }

  /** A string is never contained in a shorter one. */
  lemma ContainsLength(s: string, sub: string)
    requires Contains(s, sub)
    ensures |sub| <= |s|
  {
    IndexOfSpec(s, sub);
  }

  /** `in` is transitive: a substring of a substring of `s` is a substring of `s`. */
  lemma {:induction false} ContainsTransitive(a: string, b: string, c: string)
    requires Contains(b, a) && Contains(c, b)
    ensures Contains(c, a)
  {
    IndexOfSpec(b, a);
    IndexOfSpec(c, b);
    IndexOfSpec(c, a);
    var i := IndexOf(b, a).value;
    var j := IndexOf(c, b).value;
    assert b[i..i + |a|] == a && c[j..j + |b|] == b;
    forall k | 0 <= k < |a|
      ensures c[i + j + k] == a[k]
    {
      assert a[k] == b[i..i + |a|][k] == b[i + k];
      assert b[i + k] == c[j..j + |b|][i + k] == c[j + i + k];
    }
    assert c[i + j..i + j + |a|] == a;
    assert OccursAt(c, a, i + j);
  }

  // ---------------------------------------------------------------------------
  // split(sep) and join

  /** `s.split(sep)` for a non-empty separator: the pieces between the
      non-overlapping occurrences of `sep`, scanned left to right. */
  function Split(s: string, sep: string): (parts: seq<string>)
    requires |sep| > 0
    ensures |parts| >= 1
    decreases |s|
  {
    match IndexOf(s, sep)
    case None => [s]
    case Some(i) =>
      IndexOfSpec(s, sep);
      [s[..i]] + Split(s[i + |sep|..], sep)
  }

  /** `sep.join(parts)`. */
  function Join(parts: seq<string>, sep: string): string
  {
    if parts == [] then ""
    else if |parts| == 1 then parts[0]
    else parts[0] + sep + Join(parts[1..], sep)
  }

  /** Joining the pieces of a split gives back the string. */
  lemma {:induction false} JoinSplit(s: string, sep: string)
    requires |sep| > 0
    ensures Join(Split(s, sep), sep) == s
    decreases |s|
  {
    var found := IndexOf(s, sep);
    if found.Some? {
      IndexOfFound(s, sep);
      var i := found.value;
      var rest := s[i + |sep|..];
      var tail := Split(rest, sep);
      JoinSplit(rest, sep);
      SplitFound(s, sep);
      JoinCons(s[..i], tail, sep);
      CutAround(s, i, i + |sep|);
    }
  }

  /** One step of `split` where `find` answers `i`. */
  lemma SplitFound(s: string, sep: string)
    requires |sep| > 0 && IndexOf(s, sep).Some?
    ensures var i := IndexOf(s, sep).value;
            i + |sep| <= |s| && Split(s, sep) == [s[..i]] + Split(s[i + |sep|..], sep)
  {
    IndexOfFound(s, sep);
  }

  lemma JoinCons(p: string, parts: seq<string>, sep: string)
    requires parts != []
    ensures Join([p] + parts, sep) == p + sep + Join(parts, sep)
  {
    assert ([p] + parts)[1..] == parts;
  }

  /** With a one-character separator that no piece contains, splitting the
      join gives back the pieces. */
  lemma {:induction false} SplitJoin(parts: seq<string>, sep: string)
    requires |parts| >= 1 && |sep| > 0
    requires forall k :: 0 <= k < |parts| ==> SepFree(parts[k], sep)
    ensures Split(Join(parts, sep), sep) == parts
  {
    var p := parts[0];
    if |parts| == 1 {
      IndexOfAbsent(p, sep);
    } else {
      var rest := Join(parts[1..], sep);
      var s := p + sep + rest;
      assert parts == [p] + parts[1..];
      JoinCons(p, parts[1..], sep);
      IndexOfAfter(p, sep, rest);
      assert forall k :: 0 <= k < |parts| - 1 ==> parts[1..][k] == parts[k + 1];
      SplitJoin(parts[1..], sep);
      assert s[..|p|] == p && s[|p| + |sep|..] == rest;
      assert Split(s, sep) == [p] + Split(rest, sep);
    }
  }

  /** Splitting on a character that does not occur gives the whole string. */
  lemma SplitAbsentChar(s: string, c: char)
    requires c !in s
    ensures Split(s, [c]) == [s]
  {
    SepFreeOfHead(s, [c]);
    IndexOfAbsent(s, [c]);
  }

  /** Splitting at the first occurrence of a character: the piece before it,
      then the split of the rest. */
  lemma SplitFirstChar(a: string, c: char, b: string)
    requires c !in a
    ensures Split(a + [c] + b, [c]) == [a] + Split(b, [c])
  {
    var s := a + [c] + b;
    SepFreeOfHead(a, [c]);
    IndexOfAfter(a, [c], b);
    assert s[..|a|] == a && s[|a| + 1..] == b;
  }

  /** A character that occurs has a first occurrence. */
  lemma {:induction false} FirstOccurrence(s: string, c: char)
    requires c in s
    ensures exists i :: 0 <= i < |s| && s[i] == c && c !in s[..i]
  {
    if s[0] != c {
      var t := s[1..];
      assert s == [s[0]] + t;
      FirstOccurrence(t, c);
      var i :| 0 <= i < |t| && t[i] == c && c !in t[..i];
      assert s[..i + 1] == [s[0]] + t[..i];
      assert s[i + 1] == c && c !in s[..i + 1];
    } else {
      assert s[0] == c && c !in s[..0];
    }
  }

  /** The first two pieces of a split on a character that occurs: joined
      with that character, they are a prefix of the string followed by the
      character or by the end. */
  lemma SplitFirstTwo(s: string, c: char)
    requires c in s
    ensures |Split(s, [c])| >= 2
    ensures var parts := Split(s, [c]);
            var r := parts[0] + [c] + parts[1];
            && c !in parts[0] && c !in parts[1]
            && r <= s && (|r| == |s| || s[|r|] == c)
  {
    FirstOccurrence(s, c);
    var i :| 0 <= i < |s| && s[i] == c && c !in s[..i];
    SplitFirstTwoAt(s, c, i);
  }

  lemma SplitFirstTwoAt(s: string, c: char, i: nat)
    requires i < |s| && s[i] == c && c !in s[..i]
    ensures |Split(s, [c])| >= 2
    ensures var parts := Split(s, [c]);
            var r := parts[0] + [c] + parts[1];
            && c !in parts[0] && c !in parts[1]
            && r <= s && (|r| == |s| || s[|r|] == c)
  {
    var a, rest := s[..i], s[i + 1..];
    assert s == a + [c] + rest;
    if c in rest {
      FirstOccurrence(rest, c);
      var j :| 0 <= j < |rest| && rest[j] == c && c !in rest[..j];
      SplitTwoDelimsAt(a, rest, c, j);
    } else {
      SplitOneDelim(a, rest, c);
    }
  }

  lemma SplitTwoDelimsAt(a: string, rest: string, c: char, j: nat)
    requires c !in a && j < |rest| && rest[j] == c && c !in rest[..j]
    ensures var parts := Split(a + [c] + rest, [c]);
            |parts| >= 2 && parts[0] == a && parts[1] == rest[..j]
            && parts[0] + [c] + parts[1] <= a + [c] + rest
            && (a + [c] + rest)[|parts[0] + [c] + parts[1]|] == c
  {
    var b, tail := rest[..j], rest[j + 1..];
    assert rest == b + [c] + tail;
    SplitTwoDelims(a, b, tail, c);
    assert a + [c] + rest == a + [c] + b + [c] + tail;
    assert (a + [c] + b + [c] + tail)[|a + [c] + b|] == c;
  }

  lemma SplitOneDelim(a: string, b: string, c: char)
    requires c !in a && c !in b
    ensures Split(a + [c] + b, [c]) == [a, b]
  {
    SplitFirstChar(a, c, b);
    SplitAbsentChar(b, c);
  }

  lemma SplitTwoDelims(a: string, b: string, tail: string, c: char)
    requires c !in a && c !in b
    ensures var parts := Split(a + [c] + b + [c] + tail, [c]);
            |parts| >= 2 && parts[0] == a && parts[1] == b
            && a + [c] + b <= a + [c] + b + [c] + tail
  {
    var s := a + [c] + b + [c] + tail;
    var rest := b + [c] + tail;
    assert s == a + [c] + rest;
    SplitFirstChar(a, c, rest);
    SplitFirstChar(b, c, tail);
    assert Split(s, [c]) == [a] + ([b] + Split(tail, [c]));
    assert s[..|a + [c] + b|] == a + [c] + b;
  }

  /** No occurrence of `sep` starts inside `p`, even one running on into
      a separator placed right after it. */
  predicate SepFree(p: string, sep: string) {
    forall j: nat :: j < |p| ==> !OccursAt(p + sep, sep, j)
  }

  /** A piece lacking the separator's first character is separator-free. */
  lemma SepFreeOfHead(p: string, sep: string)
    requires |sep| > 0 && sep[0] !in p
    ensures SepFree(p, sep)
  {
    forall j: nat | j < |p|
      ensures !OccursAt(p + sep, sep, j)
    {
      if j + |sep| <= |p + sep| {
        assert (p + sep)[j..j + |sep|][0] == p[j];
      }
    }
  }

  /** A separator-free string holds no occurrence of the separator. */
  lemma IndexOfAbsent(s: string, sep: string)
    requires |sep| > 0 && SepFree(s, sep)
    ensures IndexOf(s, sep) == None
  {
    IndexOfSpec(s, sep);
    forall j: nat | j + |sep| <= |s|
      ensures !OccursAt(s, sep, j)
    {
      assert !OccursAt(s + sep, sep, j);
      assert (s + sep)[j..j + |sep|] == s[j..j + |sep|];
    }
  }

  /** In `a + sep + b`, with `a` separator-free, the first occurrence is
      the one right after `a`. */
  lemma IndexOfAfter(a: string, sep: string, b: string)
    requires |sep| > 0 && SepFree(a, sep)
    ensures IndexOf(a + sep + b, sep) == Some(|a|)
  {
    var s := a + sep + b;
    IndexOfSpec(s, sep);
    assert s[|a|..|a| + |sep|] == sep;
    assert OccursAt(s, sep, |a|);
    forall j: nat | j < |a|
      ensures !OccursAt(s, sep, j)
    {
      assert !OccursAt(a + sep, sep, j);
      assert s[j..j + |sep|] == (a + sep)[j..j + |sep|];
    }
  }

  /** A character absent from every piece and from the separator is absent
      from the joined string. */
  lemma {:induction false} JoinAbsent(parts: seq<string>, sep: string, c: char)
    requires c !in sep && forall k :: 0 <= k < |parts| ==> c !in parts[k]
    ensures c !in Join(parts, sep)
    decreases |parts|
  {
    if |parts| > 1 {
      assert forall k :: 0 <= k < |parts| - 1 ==> parts[1..][k] == parts[k + 1];
      JoinAbsent(parts[1..], sep, c);
    }
  }

  /** The joined string starts with the first piece's first character and
      ends with the last piece's last character. */
  lemma JoinEnds(parts: seq<string>, sep: string)
    requires parts != [] && parts[0] != [] && parts[|parts| - 1] != []
    ensures var s := Join(parts, sep);
            && s != [] && s[0] == parts[0][0]
            && s[|s| - 1] == parts[|parts| - 1][|parts[|parts| - 1]| - 1]
  {
    JoinEndsLast(parts, sep);
  }

  /** The joined string ends with the last piece's last character. */
  lemma {:induction false} JoinEndsLast(parts: seq<string>, sep: string)
    requires parts != [] && parts[|parts| - 1] != []
    ensures var s := Join(parts, sep);
            s != [] && s[|s| - 1] == parts[|parts| - 1][|parts[|parts| - 1]| - 1]
    decreases |parts|
  {
    if |parts| > 1 {
      assert parts[1..][|parts| - 2] == parts[|parts| - 1];
      JoinEndsLast(parts[1..], sep);
    }
  }

  // ---------------------------------------------------------------------------
  // split() on whitespace

  /** Length of the leading run of non-whitespace characters. */
  function WordEnd(t: string): (n: nat)
    ensures n <= |t|
    ensures forall k :: 0 <= k < n ==> !IsSpace(t[k])
    ensures n < |t| ==> IsSpace(t[n])
    ensures t != [] && !IsSpace(t[0]) ==> n >= 1
  {
    if t == [] || IsSpace(t[0]) then 0 else 1 + WordEnd(t[1..])
  }

  predicate IsWord(w: string) {
    w != [] && forall k :: 0 <= k < |w| ==> !IsSpace(w[k])
  }

  /** `s.split()`: the maximal runs of non-whitespace characters, in order. */
  function Words(s: string): seq<string>
    decreases |s|
  {
    var t := StripStart(s);
    if t == [] then []
    else
      var n := WordEnd(t);
      [t[..n]] + Words(t[n..])
  }

  /** `split()` gives no empty piece and no piece holding whitespace. */
  lemma {:induction false} WordsAreWords(s: string)
    ensures forall k :: 0 <= k < |Words(s)| ==> IsWord(Words(s)[k])
    decreases |s|
  {
    var t := StripStart(s);
    if t != [] {
      var n := WordEnd(t);
      WordsAreWords(t[n..]);
      assert IsWord(t[..n]) by {
        forall k | 0 <= k < n ensures !IsSpace(t[..n][k]) {
          assert t[..n][k] == t[k];
        }
      }
      var ws := Words(s);
      assert ws == [t[..n]] + Words(t[n..]);
      forall k | 0 <= k < |ws| ensures IsWord(ws[k]) {
        if k > 0 {
          assert ws[k] == Words(t[n..])[k - 1];
        }
      }
    }
  }

  /** Splitting a space-joined list of words gives back the words. */
  lemma {:induction false} WordsJoin(ws: seq<string>)
    requires forall k :: 0 <= k < |ws| ==> IsWord(ws[k])
    ensures Words(Join(ws, " ")) == ws
  {
    if ws == [] {
      assert StripStart([]) == [];
    } else if |ws| == 1 {
      WordsSingle(ws[0]);
    } else {
      var w := ws[0];
      var rest := Join(ws[1..], " ");
      assert ws == [w] + ws[1..];
      JoinCons(w, ws[1..], " ");
      WordsCons(w, rest);
      WordsJoin(ws[1..]);
    }
  }

  /** A single word splits to itself. */
  lemma WordsSingle(w: string)
    requires IsWord(w)
    ensures Words(w) == [w]
  {
    WordEndAt(w, []);
    assert w + [] == w && w[..|w|] == w && w[|w|..] == [];
    assert StripStart(w) == w;
    assert StripStart([]) == [] && Words([]) == [];
  }

  /** A word followed by a space: the word, then the split of the rest. */
  lemma WordsCons(w: string, rest: string)
    requires IsWord(w)
    ensures Words(w + " " + rest) == [w] + Words(rest)
  {
    var t := w + " " + rest;
    WordEndAt(w, " " + rest);
    assert t == w + (" " + rest);
    assert StripStart(t) == t;
    assert t[..|w|] == w;
    assert t[|w|..] == " " + rest;
    assert Words(t) == [w] + Words(" " + rest);
    assert StripStart(" " + rest) == StripStart(rest);
  }

  lemma WordEndAt(w: string, u: string)
    requires IsWord(w)
    requires u == [] || IsSpace(u[0])
    ensures WordEnd(w + u) == |w|
  {
    forall k | 0 <= k < |w|
      ensures !IsSpace((w + u)[k])
    {
      assert (w + u)[k] == w[k];
    }
    if u != [] {
      assert (w + u)[|w|] == u[0];
    }
  }

  // ---------------------------------------------------------------------------
  // lower()

  function LowerChar(c: char): char {
    if 'A' <= c <= 'Z' then (c as int + 32) as char else c
  }

  /** `s.lower()` on the ASCII letters; every other code point is kept. */
  function Lower(s: string): (r: string)
    ensures |r| == |s|
  {
    seq(|s|, i requires 0 <= i < |s| => LowerChar(s[i]))
  }

  // ---------------------------------------------------------------------------
  // int() on a token id

  predicate IsDigit(c: char) {
    '0' <= c <= '9'
  }

  function DigitValue(c: char): nat
    requires IsDigit(c)
  {
    c as int - '0' as int
  }

  /** The value of a string of decimal digits, most significant first. */
  function DigitsValue(s: string): nat
    requires forall k :: 0 <= k < |s| ==> IsDigit(s[k])
  {
    if s == [] then 0
    else DigitsValue(s[..|s| - 1]) * 10 + DigitValue(s[|s| - 1])
  }

  /** `int(text)` on a column of ASCII digits; anything else is rejected. */
  function ParseInt(text: string): (r: Option<int>)
    ensures r.Some? <==> text != [] && forall k :: 0 <= k < |text| ==> IsDigit(text[k])
    ensures r.Some? ==> r.value >= 0
  {
    if text != [] && forall k :: 0 <= k < |text| ==> IsDigit(text[k])
    then Some(DigitsValue(text)) else None
  }
}
