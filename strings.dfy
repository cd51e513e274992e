/** Text primitives the bot relies on from Python's `str`: `startswith`,
    substring `in`, ASCII `upper`, and `split`/`join` on one separator. */
module Strings {

  /** `s.startswith(prefix)` */
  predicate StartsWith(s: string, prefix: string)
  {
    |prefix| <= |s| && s[..|prefix|] == prefix
  }

  /** `needle in s`: `needle` occurs somewhere in `s` (at offset 0, or in the tail). */
  predicate Contains(s: string, needle: string)
    decreases |s|
  {
    StartsWith(s, needle) || (|s| > 0 && Contains(s[1..], needle))
  }

  /** An occurrence at a given offset is a containment. */
  lemma {:induction false} ContainsAt(s: string, needle: string, i: nat)
    requires i + |needle| <= |s| && s[i..i + |needle|] == needle
    ensures Contains(s, needle)
    decreases i
  {
    if i == 0 {
      assert s[..|needle|] == needle;
    } else {
      assert s[1..][i - 1..i - 1 + |needle|] == s[i..i + |needle|];
      ContainsAt(s[1..], needle, i - 1);
    }
  }

  /** A containment has an offset. */
  lemma {:induction false} ContainsOffset(s: string, needle: string) returns (i: nat)
    requires Contains(s, needle)
    ensures i + |needle| <= |s| && s[i..i + |needle|] == needle
    decreases |s|
  {
    if StartsWith(s, needle) {
      i := 0;
    } else {
      var j := ContainsOffset(s[1..], needle);
      assert s[1..][j..j + |needle|] == s[j + 1..j + 1 + |needle|];
      i := j + 1;
    }
  }

  /** Substring containment is transitive: a word inside a keyword is found
      wherever the keyword is found. */
  lemma ContainsTransitive(s: string, word: string, part: string)
    requires Contains(s, word) && Contains(word, part)
    ensures Contains(s, part)
  {
    var i := ContainsOffset(s, word);
    var j := ContainsOffset(word, part);
    forall k | 0 <= k < |part|
      ensures s[i + j + k] == part[k]
    {
      assert part[k] == word[j..j + |part|][k] == word[j + k];
      assert word[j + k] == s[i..i + |word|][j + k] == s[i + j + k];
    }
    assert s[i + j..i + j + |part|] == part;
    ContainsAt(s, part, i + j);
  }

  /** A non-empty needle found in `s` starts with a character of `s`, and is no longer than `s`. */
  lemma {:induction false} ContainsNecessary(s: string, needle: string)
    requires Contains(s, needle)
    ensures |needle| <= |s|
    ensures |needle| > 0 ==> needle[0] in s
  {
    var i := ContainsOffset(s, needle);
    if |needle| > 0 {
      assert needle[0] == s[i..i + |needle|][0] == s[i];
    }
  }

  /** ASCII case mapping of one character, as `str.upper` does on ASCII. */
  function UpperChar(c: char): (u: char)
  {
    if 'a' <= c <= 'z' then (c as int - 'a' as int + 'A' as int) as char else c
  }

  /** `s.upper()` restricted to the ASCII letters. */
  function Upper(s: string): string
  {
    seq(|s|, i requires 0 <= i < |s| => UpperChar(s[i]))
  }

  /** `Upper(s) == "TRUE"` exactly when `s` is "true" in any mix of cases. */
  lemma UpperIsTrue(s: string)
    ensures Upper(s) == "TRUE" <==>
      |s| == 4 && s[0] in "tT" && s[1] in "rR" && s[2] in "uU" && s[3] in "eE"
  {
    if Upper(s) == "TRUE" {
      assert |s| == |Upper(s)| == 4;
      assert Upper(s)[0] == UpperChar(s[0]) && Upper(s)[1] == UpperChar(s[1]);
      assert Upper(s)[2] == UpperChar(s[2]) && Upper(s)[3] == UpperChar(s[3]);
      assert UpperChar(s[0]) == 'T' && UpperChar(s[1]) == 'R';
      assert UpperChar(s[2]) == 'U' && UpperChar(s[3]) == 'E';
    }
    if |s| == 4 && s[0] in "tT" && s[1] in "rR" && s[2] in "uU" && s[3] in "eE" {
      assert Upper(s) == [UpperChar(s[0]), UpperChar(s[1]), UpperChar(s[2]), UpperChar(s[3])];
    }
  }

  /** The separator the problem list is stored with. */
  const Sep: string := ", "

  /** `s.split(', ')`: the pieces between the leftmost non-overlapping
      separators; the empty string splits into one empty piece. */
  function Split(s: string): (pieces: seq<string>)
    ensures |pieces| >= 1
    decreases |s|
  {
    if |s| < 2 then [s]
    else if s[..2] == Sep then [""] + Split(s[2..])
    else
      var rest := Split(s[1..]);
      [[s[0]] + rest[0]] + rest[1..]
  }

  /** `', '.join(pieces)` */
  function Join(pieces: seq<string>): (s: string)
    decreases |pieces|
  {
    if |pieces| == 0 then ""
    else if |pieces| == 1 then pieces[0]
    else pieces[0] + Sep + Join(pieces[1..])
  }

  /** Splitting and re-joining gives back the text unchanged. */
  lemma {:induction false} JoinSplit(s: string)
    ensures Join(Split(s)) == s
    decreases |s|
  {
    if |s| < 2 {
    } else if s[..2] == Sep {
      JoinSplit(s[2..]);
      var tail := Split(s[2..]);
      assert Split(s) == [""] + tail;
      assert Join([""] + tail) == "" + Sep + Join(tail);
      assert s == s[..2] + s[2..];
    } else {
      JoinSplit(s[1..]);
      JoinGrowFirst(s[0], Split(s[1..]));
      assert s == [s[0]] + s[1..];
    }
  }

  /** Putting a character in front of the first piece puts it in front of the join. */
  lemma {:induction false} JoinGrowFirst(c: char, pieces: seq<string>)
    requires |pieces| >= 1
    ensures Join([[c] + pieces[0]] + pieces[1..]) == [c] + Join(pieces)
  {
    var grown := [[c] + pieces[0]] + pieces[1..];
    assert grown[0] == [c] + pieces[0] && grown[1..] == pieces[1..];
    if |pieces| > 1 {
      assert Join(grown) == ([c] + pieces[0]) + Sep + Join(pieces[1..]);
    }
  }

  /** Joining with one more piece at the end adds the separator and the piece. */
  lemma {:induction false} JoinSnoc(pieces: seq<string>, p: string)
    requires |pieces| >= 1
    ensures Join(pieces + [p]) == Join(pieces) + Sep + p
    decreases |pieces|
  {
    var longer := pieces + [p];
    assert longer[0] == pieces[0] && longer[1..] == pieces[1..] + [p];
    if |pieces| > 1 {
      JoinSnoc(pieces[1..], p);
    } else {
      assert longer[1..] == [p];
    }
  }

  /** A piece without a separator splits into itself. */
  lemma {:induction false} SplitPlain(a: string)
    requires !Contains(a, Sep)
    ensures Split(a) == [a]
    decreases |a|
  {
    if |a| >= 2 {
      assert a[..2] != Sep;
      assert !Contains(a[1..], Sep);
      SplitPlain(a[1..]);
      assert a == [a[0]] + a[1..];
    }
  }

  /** A separator-free piece followed by the separator splits off as the first piece. */
  lemma {:induction false} SplitFirst(a: string, rest: string)
    requires !Contains(a, Sep)
    ensures Split(a + Sep + rest) == [a] + Split(rest)
    decreases |a|
  {
    var s := a + Sep + rest;
    if |a| == 0 {
      assert s[..2] == Sep && s[2..] == rest;
    } else {
      var s1 := s[1..];
      assert s1 == a[1..] + Sep + rest;
      assert !Contains(a[1..], Sep);
      SplitFirst(a[1..], rest);
      assert s[..2] != Sep by {
        if |a| >= 2 {
          assert s[..2] == a[..2];
          assert !StartsWith(a, Sep);
        } else {
          assert s[1] == ',';
        }
      }
      var pieces := Split(s1);
      assert pieces == [a[1..]] + Split(rest);
      assert Split(s) == [[s[0]] + pieces[0]] + pieces[1..];
      assert [s[0]] + pieces[0] == a;
      assert pieces[1..] == Split(rest);
    }
  }

  /** Joining separator-free pieces and splitting again gives back the pieces. */
  lemma {:induction false} SplitJoin(pieces: seq<string>)
    requires |pieces| >= 1
    requires forall i :: 0 <= i < |pieces| ==> !Contains(pieces[i], Sep)
    ensures Split(Join(pieces)) == pieces
    decreases |pieces|
  {
    if |pieces| == 1 {
      SplitPlain(pieces[0]);
    } else {
      SplitJoin(pieces[1..]);
      SplitFirst(pieces[0], Join(pieces[1..]));
      assert pieces == [pieces[0]] + pieces[1..];
    }
  }

  /** No piece of a split contains the separator. */
  lemma {:induction false} SplitPiecesPlain(s: string)
    ensures forall i :: 0 <= i < |Split(s)| ==> !Contains(Split(s)[i], Sep)
    decreases |s|
  {
    if |s| < 2 {
      if Contains(s, Sep) { ContainsNecessary(s, Sep); }
    } else if s[..2] == Sep {
      SplitPiecesPlain(s[2..]);
      assert !Contains("", Sep);
      assert Split(s) == [""] + Split(s[2..]);
    } else {
      SplitPiecesPlain(s[1..]);
      var rest := Split(s[1..]);
      var head := [s[0]] + rest[0];
      assert !Contains(rest[0], Sep);
      assert !Contains(head, Sep) by {
        if |rest[0]| == 0 {
          if Contains(head, Sep) { ContainsNecessary(head, Sep); }
        } else {
          // head starts with s[0] s[1], which is not the separator
          assert head[..2] == s[..2] by { FirstPieceStart(s[1..]); }
          assert head[1..] == rest[0];
        }
      }
      assert Split(s) == [head] + rest[1..];
    }
  }

  /** The first piece of a split is a prefix of the text. */
  lemma {:induction false} FirstPieceStart(s: string)
    ensures StartsWith(s, Split(s)[0])
    decreases |s|
  {
    if |s| >= 2 && s[..2] != Sep {
      FirstPieceStart(s[1..]);
    }
  }
}
