/** String helpers standing in for the `str` methods the source calls:
    `split(char)`, `split_whitespace`, filtering out whitespace, and the
    join that `dashes_to_underscores` performs. Strings are `seq<char>`. */
module Strings {

  /** `char::is_whitespace`: the code points with the Unicode
      `White_Space` property. These are tab, line feed, vertical tab, form
      feed, carriage return and space; next line (U+0085) and no-break
      space (U+00A0); the Ogham space mark (U+1680); the spaces U+2000 to
      U+200A; the line and paragraph separators (U+2028, U+2029); the
      narrow no-break space (U+202F); the medium mathematical space
      (U+205F); and the ideographic space (U+3000). */
  predicate IsWhitespace(c: char) {
    var n := c as int;
    || 9 <= n <= 13 || n == 0x20
    || n == 0x85 || n == 0xA0 || n == 0x1680
    || 0x2000 <= n <= 0x200A
    || n == 0x2028 || n == 0x2029 || n == 0x202F || n == 0x205F
    || n == 0x3000
  }

  predicate NoWhitespace(s: string) {
    forall i :: 0 <= i < |s| ==> !IsWhitespace(s[i])
  }

  predicate StartsWith(s: string, c: char) {
    |s| > 0 && s[0] == c
  }

  predicate EndsWith(s: string, c: char) {
    |s| > 0 && s[|s| - 1] == c
  }

  /** `str::split` with a single-character pattern: always at least one
      piece, and no piece contains the separator. */
  function Split(s: string, sep: char): (parts: seq<string>)
    ensures |parts| >= 1
    ensures forall k :: 0 <= k < |parts| ==> sep !in parts[k]
  {
    if |s| == 0 then [""]
    else
      var rest := Split(s[1..], sep);
      if s[0] == sep then [""] + rest
      else [[s[0]] + rest[0]] + rest[1..]
  }

  /** Joins pieces with a separator between neighbours. */
  function Join(parts: seq<string>, sep: char): string
  {
    if |parts| == 0 then ""
    else if |parts| == 1 then parts[0]
    else parts[0] + [sep] + Join(parts[1..], sep)
  }

  /** Joining whitespace-free pieces with a non-whitespace separator
      gives a whitespace-free string. */
  lemma {:induction false} JoinNoWhitespace(parts: seq<string>, sep: char)
    requires !IsWhitespace(sep)
    requires forall k :: 0 <= k < |parts| ==> NoWhitespace(parts[k])
    ensures NoWhitespace(Join(parts, sep))
    decreases |parts|
  {
    if |parts| > 1 {
      JoinNoWhitespace(parts[1..], sep);
    }
  }

  /** Concatenation of pieces with nothing between them. */
  function Concat(parts: seq<string>): string
  {
    if |parts| == 0 then "" else parts[0] + Concat(parts[1..])
  }

  /** Splitting a separator-free prefix followed by more text. */
  lemma {:induction false} SplitFreePrefix(p: string, t: string, sep: char)
    requires sep !in p
    ensures Split(p + t, sep) == [p + Split(t, sep)[0]] + Split(t, sep)[1..]
    decreases |p|
  {
    if |p| == 0 {
      assert p + t == t;
      var r := Split(t, sep);
      assert r == [r[0]] + r[1..];
      assert p + r[0] == r[0];
    } else {
      assert (p + t)[1..] == p[1..] + t;
      assert (p + t)[0] == p[0];
      SplitFreePrefix(p[1..], t, sep);
      assert [p[0]] + (p[1..] + Split(t, sep)[0]) == p + Split(t, sep)[0];
    }
  }

  /** Splitting undoes joining when no piece holds the separator. */
  lemma {:induction false} SplitJoin(parts: seq<string>, sep: char)
    requires |parts| >= 1
    requires forall k :: 0 <= k < |parts| ==> sep !in parts[k]
    ensures Split(Join(parts, sep), sep) == parts
    decreases |parts|
  {
    if |parts| == 1 {
      SplitFreePrefix(parts[0], "", sep);
      assert parts[0] + "" == parts[0];
    } else {
      var tail := Join(parts[1..], sep);
      SplitJoin(parts[1..], sep);
      assert Split([sep] + tail, sep) == [""] + parts[1..] by {
        assert ([sep] + tail)[1..] == tail;
      }
      assert parts[0] + [sep] + tail == parts[0] + ([sep] + tail);
      SplitFreePrefix(parts[0], [sep] + tail, sep);
      assert parts[0] + "" == parts[0];
    }
  }

  /** Joining with one more, empty, piece adds a trailing separator. */
  lemma {:induction false} JoinTrailingEmpty(parts: seq<string>, sep: char)
    requires |parts| >= 1
    ensures Join(parts + [""], sep) == Join(parts, sep) + [sep]
    decreases |parts|
  {
    if |parts| == 1 {
      assert Join(parts + [""], sep) == parts[0] + [sep] + Join([""], sep) by {
        assert (parts + [""])[1..] == [""];
      }
    } else {
      JoinTrailingEmpty(parts[1..], sep);
      assert (parts + [""])[1..] == parts[1..] + [""];
    }
  }

  /** Joining undoes splitting: no character is lost or invented. */
  lemma {:induction false} JoinSplit(s: string, sep: char)
    ensures Join(Split(s, sep), sep) == s
    decreases |s|
  {
    if |s| > 0 {
      var rest := Split(s[1..], sep);
      JoinSplit(s[1..], sep);
      if s[0] == sep {
        assert Join([""] + rest, sep) == "" + [sep] + Join(rest, sep) by {
          assert ([""] + rest)[1..] == rest;
        }
        assert s == [s[0]] + s[1..];
      } else {
        var r := [[s[0]] + rest[0]] + rest[1..];
        if |rest| == 1 {
          assert Join(r, sep) == [s[0]] + rest[0];
        } else {
          assert r[1..] == rest[1..];
          assert Join(rest, sep) == rest[0] + [sep] + Join(rest[1..], sep);
          assert Join(r, sep) == [s[0]] + rest[0] + [sep] + Join(rest[1..], sep);
        }
        assert s == [s[0]] + s[1..];
      }
    }
  }

  /** `str::split_whitespace`: the maximal runs of non-whitespace
      characters, in order. */
  function SplitWhitespace(s: string): (words: seq<string>)
    ensures forall k :: 0 <= k < |words| ==> |words[k]| > 0 && NoWhitespace(words[k])
    ensures |s| > 0 && !IsWhitespace(s[0]) ==> |words| > 0 && words[0][0] == s[0]
  {
    if |s| == 0 then []
    else if IsWhitespace(s[0]) then SplitWhitespace(s[1..])
    else
      var rest := SplitWhitespace(s[1..]);
      if |s| > 1 && !IsWhitespace(s[1]) then [[s[0]] + rest[0]] + rest[1..]
      else [[s[0]]] + rest
  }

  /** The characters of `s` that are not whitespace, in order: the result
      of `s.chars().filter(|c| !c.is_whitespace()).collect()`. */
  function RemoveWhitespace(s: string): (r: string)
    ensures NoWhitespace(r)
    ensures |r| <= |s|
  {
    if |s| == 0 then ""
    else if IsWhitespace(s[0]) then RemoveWhitespace(s[1..])
    else [s[0]] + RemoveWhitespace(s[1..])
  }

  /** A whitespace-free string loses nothing. */
  lemma {:induction false} RemoveWhitespaceOfClean(s: string)
    requires NoWhitespace(s)
    ensures RemoveWhitespace(s) == s
    decreases |s|
  {
    if |s| > 0 {
      RemoveWhitespaceOfClean(s[1..]);
      assert [s[0]] + s[1..] == s;
    }
  }

  /** One character: dropped iff it is whitespace, kept otherwise. With
      `RemoveWhitespaceAppend` this fixes the result for every string. */
  lemma {:induction false} RemoveWhitespaceOfChar(c: char)
    ensures IsWhitespace(c) ==> RemoveWhitespace([c]) == ""
    ensures !IsWhitespace(c) ==> RemoveWhitespace([c]) == [c]
  {
    assert [c][1..] == "";
  }

  /** Removing whitespace commutes with concatenation. */
  lemma {:induction false} RemoveWhitespaceAppend(a: string, b: string)
    ensures RemoveWhitespace(a + b) == RemoveWhitespace(a) + RemoveWhitespace(b)
    decreases |a|
  {
    if |a| > 0 {
      assert (a + b)[0] == a[0];
      assert (a + b)[1..] == a[1..] + b;
      RemoveWhitespaceAppend(a[1..], b);
    } else {
      assert a + b == b;
    }
  }

  /** The words of `split_whitespace` hold exactly the non-whitespace
      characters of the input, in order. */
  lemma {:induction false} SplitWhitespaceKeepsCharacters(s: string)
    ensures Concat(SplitWhitespace(s)) == RemoveWhitespace(s)
    decreases |s|
  {
    if |s| > 0 {
      SplitWhitespaceKeepsCharacters(s[1..]);
      var rest := SplitWhitespace(s[1..]);
      if !IsWhitespace(s[0]) {
        if |s| > 1 && !IsWhitespace(s[1]) {
          var w := [[s[0]] + rest[0]] + rest[1..];
          assert w[1..] == rest[1..];
          assert Concat(rest) == rest[0] + Concat(rest[1..]);
          assert Concat(w) == [s[0]] + rest[0] + Concat(rest[1..]);
        } else {
          var w := [[s[0]]] + rest;
          assert w[1..] == rest;
        }
      }
    }
  }

  /** Words separated by one space each are recovered by
      `split_whitespace`. */
  lemma {:induction false} SplitWhitespaceJoin(words: seq<string>)
    requires forall k :: 0 <= k < |words| ==> |words[k]| > 0 && NoWhitespace(words[k])
    ensures SplitWhitespace(Join(words, ' ')) == words
    decreases |words|
  {
    if |words| == 1 {
      SplitWhitespaceWord(words[0], "");
      assert words[0] + "" == words[0];
    } else if |words| > 1 {
      var tail := Join(words[1..], ' ');
      SplitWhitespaceJoin(words[1..]);
      assert SplitWhitespace([' '] + tail) == words[1..] by {
        assert ([' '] + tail)[1..] == tail;
      }
      assert words[0] + [' '] + tail == words[0] + ([' '] + tail);
      SplitWhitespaceWord(words[0], [' '] + tail);
    }
  }

  /** A whole word followed by text starting with whitespace (or by
      nothing) is split off as one word. */
  lemma {:induction false} SplitWhitespaceWord(w: string, t: string)
    requires |w| > 0 && NoWhitespace(w)
    requires |t| == 0 || IsWhitespace(t[0])
    ensures SplitWhitespace(w + t) == [w] + SplitWhitespace(t)
    decreases |w|
  {
    var s := w + t;
    assert s[0] == w[0];
    assert s[1..] == w[1..] + t;
    if |w| == 1 {
      assert s[1..] == t;
      assert w == [w[0]];
      if |t| > 0 {
        assert s[1] == t[0];
      }
    } else {
      SplitWhitespaceWord(w[1..], t);
      assert s[1] == w[1];
      assert [s[0]] + w[1..] == w;
    }
  }

}
