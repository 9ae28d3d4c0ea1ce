/** The few Python string operations the application relies on, restricted to ASCII:
    `str.lower`, `str.strip`, `str.split()`, `string.punctuation`, the `in` substring test,
    `str.join`, and the root part of `os.path.splitext`. */
module PyText {
  import opened Seqs

  predicate IsAsciiUpper(c: char) { 'A' <= c <= 'Z' }
  predicate IsAsciiLower(c: char) { 'a' <= c <= 'z' }
  predicate IsAsciiDigit(c: char) { '0' <= c <= '9' }
  predicate IsAsciiAlnum(c: char) { IsAsciiUpper(c) || IsAsciiLower(c) || IsAsciiDigit(c) }

  /** Python's `str.isspace` on the ASCII range: tab, line feed, vertical tab, form feed,
      carriage return, the four separators 0x1C..0x1F, and the space. */
  predicate IsSpace(c: char)
  {
    c == ' ' || (9 <= c as int <= 13) || (28 <= c as int <= 31)
  }

  /** `string.punctuation`: the 32 printable ASCII characters that are neither letters,
      digits nor the space. */
  const Punctuation: string := "!\"#$%&'()*+,-./:;<=>?@[\\]^_`{|}~"

  predicate IsPunctuation(c: char) { c in Punctuation }
  predicate NotPunctuation(c: char) { c !in Punctuation }

  predicate NoSpace(w: string)
  {
    forall i :: 0 <= i < |w| ==> !IsSpace(w[i])
  }

  predicate AllSpace(w: string)
  {
    forall i :: 0 <= i < |w| ==> IsSpace(w[i])
  }

  /** ASCII case folding of one character. */
  function ToLower(c: char): (d: char)
    ensures !IsAsciiUpper(d)
    ensures IsAsciiUpper(c) ==> d as int == c as int + 32
    ensures !IsAsciiUpper(c) ==> d == c
  {
    if IsAsciiUpper(c) then (c as int + 32) as char else c
  }

  /** `s.lower()` for ASCII text. */
  function Lower(s: string): (r: string)
    ensures |r| == |s|
    ensures forall i :: 0 <= i < |s| ==> r[i] == ToLower(s[i])
  {
    Map(ToLower, s)
  }

  /** Lower-casing twice is lower-casing once. */
  lemma LowerIdempotent(s: string)
    ensures Lower(Lower(s)) == Lower(s)
  {
    assert forall i :: 0 <= i < |s| ==> ToLower(ToLower(s[i])) == ToLower(s[i]);
  }

  /** `s.lstrip()`: drops the leading whitespace and nothing else. */
  function LStrip(s: string): (r: string)
    ensures |r| <= |s| && r == s[|s| - |r|..]
    ensures AllSpace(s[..|s| - |r|])
    ensures r == [] || !IsSpace(r[0])
  {
    if s != [] && IsSpace(s[0]) then LStrip(s[1..]) else s
  }

  /** `s.rstrip()`: drops the trailing whitespace and nothing else. */
  function RStrip(s: string): (r: string)
    ensures |r| <= |s| && r == s[..|r|]
    ensures AllSpace(s[|r|..])
    ensures r == [] || !IsSpace(r[|r| - 1])
  {
    if s != [] && IsSpace(s[|s| - 1]) then RStrip(s[..|s| - 1]) else s
  }

  /** `s.strip()`. */
  function Strip(s: string): string
  {
    RStrip(LStrip(s))
  }

  /** Whitespace is never punctuation. */
  lemma SpaceIsNotPunctuation(c: char)
    requires IsSpace(c)
    ensures NotPunctuation(c)
  {
    assert forall i :: 0 <= i < |Punctuation| ==> Punctuation[i] as int >= 33;
  }

  /** A string is its leading whitespace followed by what `lstrip` keeps. */
  lemma LStripSplits(s: string)
    ensures s == s[..|s| - |LStrip(s)|] + LStrip(s)
  {
  }

  /** A string is what `rstrip` keeps followed by its trailing whitespace. */
  lemma RStripSplits(s: string)
    ensures s == RStrip(s) + s[|RStrip(s)|..]
  {
  }

  /** `s.translate(str.maketrans('', '', string.punctuation))`. */
  function DeletePunctuation(s: string): string
  {
    Filter(s, NotPunctuation)
  }

  /** Length of the run of non-whitespace characters at the front of `s`. */
  function WordLength(s: string): (n: nat)
    ensures n <= |s|
    ensures NoSpace(s[..n])
    ensures n == |s| || IsSpace(s[n])
  {
    if s == [] || IsSpace(s[0]) then 0 else 1 + WordLength(s[1..])
  }

  /** `s.split()`: the maximal runs of non-whitespace characters, in order. */
  function Split(s: string): (words: seq<string>)
    decreases |s|
  {
    if s == [] then []
    else if IsSpace(s[0]) then Split(s[1..])
    else
      var n := WordLength(s);
      [s[..n]] + Split(s[n..])
  }

  /** The words of `split()` are non-empty and hold no whitespace. */
  lemma {:induction false} SplitWords(s: string)
    ensures forall k :: 0 <= k < |Split(s)| ==> Split(s)[k] != [] && NoSpace(Split(s)[k])
    decreases |s|
  {
    if s != [] {
      if IsSpace(s[0]) {
        SplitWords(s[1..]);
      } else {
        var n := WordLength(s);
        SplitWords(s[n..]);
        assert Split(s) == [s[..n]] + Split(s[n..]);
      }
    }
  }

  /** A string of whitespace only splits into no words. */
  lemma {:induction false} SplitAllSpace(s: string)
    requires AllSpace(s)
    ensures Split(s) == []
  {
    if s != [] {
      assert AllSpace(s[1..]) by {
        forall i | 0 <= i < |s[1..]| ensures IsSpace(s[1..][i]) {
          assert s[1..][i] == s[i + 1];
        }
      }
      SplitAllSpace(s[1..]);
    }
  }

  /** Whitespace in front of a string does not change its words. */
  lemma {:induction false} SplitDropsLeadingSpace(p: string, t: string)
    requires AllSpace(p)
    ensures Split(p + t) == Split(t)
  {
    if p != [] {
      assert (p + t)[0] == p[0];
      assert (p + t)[1..] == p[1..] + t;
      assert AllSpace(p[1..]) by {
        forall i | 0 <= i < |p[1..]| ensures IsSpace(p[1..][i]) {
          assert p[1..][i] == p[i + 1];
        }
      }
      SplitDropsLeadingSpace(p[1..], t);
    } else {
      assert p + t == t;
    }
  }

  lemma {:induction false} WordLengthSpaceAfter(s: string, c: char)
    requires IsSpace(c)
    ensures WordLength(s + [c]) == WordLength(s)
  {
    if s != [] {
      assert (s + [c])[0] == s[0];
      if !IsSpace(s[0]) {
        assert (s + [c])[1..] == s[1..] + [c];
        WordLengthSpaceAfter(s[1..], c);
      }
    }
  }

  /** One whitespace character after a string does not change its words. */
  lemma {:induction false} SplitDropsSpaceAfter(s: string, c: char)
    requires IsSpace(c)
    ensures Split(s + [c]) == Split(s)
    decreases |s|
  {
    if s == [] {
      assert Split([c]) == Split([]);
    } else {
      assert (s + [c])[0] == s[0];
      if IsSpace(s[0]) {
        assert (s + [c])[1..] == s[1..] + [c];
        SplitDropsSpaceAfter(s[1..], c);
      } else {
        var n := WordLength(s);
        WordLengthSpaceAfter(s, c);
        assert (s + [c])[..n] == s[..n];
        assert (s + [c])[n..] == s[n..] + [c];
        SplitDropsSpaceAfter(s[n..], c);
      }
    }
  }

  /** Whitespace after a string does not change its words. */
  lemma {:induction false} SplitDropsTrailingSpace(t: string, p: string)
    requires AllSpace(p)
    ensures Split(t + p) == Split(t)
    decreases |p|
  {
    if p == [] {
      assert t + p == t;
    } else {
      var q := p[..|p| - 1];
      assert p == q + [p[|p| - 1]];
      assert t + p == (t + q) + [p[|p| - 1]];
      SplitDropsSpaceAfter(t + q, p[|p| - 1]);
      assert AllSpace(q) by {
        forall i | 0 <= i < |q| ensures IsSpace(q[i]) {
          assert q[i] == p[i];
        }
      }
      SplitDropsTrailingSpace(t, q);
    }
  }

  /** A string without whitespace is one run: its front word is all of it. */
  lemma {:induction false} WordLengthNoSpace(w: string)
    requires NoSpace(w)
    ensures WordLength(w) == |w|
  {
    if w != [] {
      assert NoSpace(w[1..]) by {
        forall i | 0 <= i < |w[1..]| ensures !IsSpace(w[1..][i]) {
          assert w[1..][i] == w[i + 1];
        }
      }
      WordLengthNoSpace(w[1..]);
    }
  }

  /** Once the front word has ended, what follows does not change it. */
  lemma {:induction false} WordLengthAppend(s: string, t: string)
    requires WordLength(s) < |s| || (t != [] && IsSpace(t[0]))
    ensures WordLength(s + t) == WordLength(s)
  {
    if s == [] {
      assert s + t == t;
    } else {
      assert (s + t)[0] == s[0];
      if !IsSpace(s[0]) {
        assert (s + t)[1..] == s[1..] + t;
        WordLengthAppend(s[1..], t);
      }
    }
  }

  /** A non-empty string without whitespace splits into itself. */
  lemma SplitOneWord(w: string)
    requires w != [] && NoSpace(w)
    ensures Split(w) == [w]
  {
    WordLengthNoSpace(w);
    assert w[..|w|] == w && w[|w|..] == [];
  }

  /** A whitespace character separates words: the words of `a`, a whitespace character,
      then `b`, are the words of `a` followed by the words of `b`. */
  lemma {:induction false} SplitAtSpace(a: string, c: char, b: string)
    requires IsSpace(c)
    ensures Split(a + [c] + b) == Split(a) + Split(b)
    decreases |a|
  {
    var s := a + [c] + b;
    if a == [] {
      assert s[0] == c && s[1..] == b;
    } else if IsSpace(a[0]) {
      assert s[0] == a[0] && s[1..] == a[1..] + [c] + b;
      SplitAtSpace(a[1..], c, b);
    } else {
      var n := WordLength(a);
      assert s == a + ([c] + b);
      WordLengthAppend(a, [c] + b);
      assert s[0] == a[0] && s[..n] == a[..n];
      assert s[n..] == a[n..] + [c] + b;
      SplitAtSpace(a[n..], c, b);
    }
  }

  /** A word at the front, ended by whitespace or by the end of the text, is the first word
      `split()` returns. */
  lemma SplitLeadingWord(w: string, b: string)
    requires w != [] && NoSpace(w)
    requires b == [] || IsSpace(b[0])
    ensures Split(w + b) == [w] + Split(b)
  {
    SplitOneWord(w);
    if b == [] {
      assert w + b == w;
    } else {
      assert w + b == w + [b[0]] + b[1..];
      SplitAtSpace(w, b[0], b[1..]);
    }
  }

  /** A word standing between whitespace, or at either end of the text, is one of the
      words `split()` returns. */
  lemma WordIsSplitOut(a: string, w: string, b: string)
    requires w != [] && NoSpace(w)
    requires a == [] || IsSpace(a[|a| - 1])
    requires b == [] || IsSpace(b[0])
    ensures w in Split(a + w + b)
  {
    if a == [] {
      SplitLeadingWord(w, b);
      assert a + w + b == w + b;
      assert Split(w + b)[0] == w;
    } else {
      var front := a[..|a| - 1];
      assert a == front + [a[|a| - 1]];
      SplitOutAfterSpace(front, a[|a| - 1], w, b);
    }
  }

  /** A word after whitespace, ended by whitespace or by the end of the text, is one of the
      words `split()` returns. */
  lemma SplitOutAfterSpace(front: string, c: char, w: string, b: string)
    requires IsSpace(c)
    requires w != [] && NoSpace(w)
    requires b == [] || IsSpace(b[0])
    ensures w in Split(front + [c] + w + b)
  {
    assert front + [c] + w + b == front + [c] + (w + b);
    SplitLeadingWord(w, b);
    SplitAtSpace(front, c, w + b);
    var l := Split(front);
    assert (l + Split(w + b))[|l|] == w;
  }

  /** Splitting words joined by single spaces gives the words back. */
  lemma {:induction false} SplitJoin(words: seq<string>)
    requires forall k :: 0 <= k < |words| ==> words[k] != [] && NoSpace(words[k])
    ensures Split(Join(words, " ")) == words
  {
    if |words| == 1 {
      SplitOneWord(words[0]);
    } else if |words| > 1 {
      SplitJoin(words[1..]);
      SplitOneWord(words[0]);
      SplitAtSpace(words[0], ' ', Join(words[1..], " "));
      assert words == [words[0]] + words[1..];
    }
  }

  /** `needle` occurs in `hay` starting at position `i`. */
  predicate OccursAt(hay: string, needle: string, i: nat)
  {
    i + |needle| <= |hay| && hay[i..i + |needle|] == needle
  }

  predicate IsPrefix(p: string, s: string)
  {
    |p| <= |s| && s[..|p|] == p
  }

  /** Python's `needle in hay` for strings. */
  predicate Contains(hay: string, needle: string)
    decreases |hay|
  {
    IsPrefix(needle, hay) || (hay != [] && Contains(hay[1..], needle))
  }

  /** The substring test holds exactly when the needle occurs at some position. */
  lemma {:induction false} ContainsIffOccurs(hay: string, needle: string)
    ensures Contains(hay, needle) <==> exists i: nat :: OccursAt(hay, needle, i)
    decreases |hay|
  {
    if Contains(hay, needle) {
      if IsPrefix(needle, hay) {
        assert OccursAt(hay, needle, 0);
      } else {
        ContainsIffOccurs(hay[1..], needle);
        var i: nat :| OccursAt(hay[1..], needle, i);
        assert hay[1..][i..i + |needle|] == hay[i + 1..i + 1 + |needle|];
        assert OccursAt(hay, needle, i + 1);
      }
    }
    if exists i: nat :: OccursAt(hay, needle, i) {
      var i: nat :| OccursAt(hay, needle, i);
      if i == 0 {
        assert IsPrefix(needle, hay);
      } else {
        assert hay[1..][i - 1..i - 1 + |needle|] == hay[i..i + |needle|];
        assert OccursAt(hay[1..], needle, i - 1);
        ContainsIffOccurs(hay[1..], needle);
      }
    }
  }

  /** A substring of the middle part is a substring of the whole. */
  lemma ContainsInMiddle(a: string, b: string, c: string, needle: string)
    requires Contains(b, needle)
    ensures Contains(a + b + c, needle)
  {
    ContainsIffOccurs(b, needle);
    var i: nat :| OccursAt(b, needle, i);
    var whole := a + b + c;
    assert whole[|a| + i..|a| + i + |needle|] == b[i..i + |needle|];
    assert OccursAt(whole, needle, |a| + i);
    ContainsIffOccurs(whole, needle);
  }

  /** Every string contains itself. */
  lemma ContainsItself(s: string)
    ensures Contains(s, s)
  {
    assert OccursAt(s, s, 0);
    ContainsIffOccurs(s, s);
  }

  /** `sep.join(parts)`. */
  function Join(parts: seq<string>, sep: string): string
  {
    if parts == [] then ""
    else if |parts| == 1 then parts[0]
    else parts[0] + sep + Join(parts[1..], sep)
  }

  /** `s.rfind(c)`: the last index holding `c`, or -1. */
  function RFind(s: string, c: char): (r: int)
    ensures -1 <= r < |s|
    ensures 0 <= r ==> s[r] == c
    ensures forall i :: r < i < |s| ==> s[i] != c
  {
    if s == [] then -1
    else if s[|s| - 1] == c then |s| - 1
    else RFind(s[..|s| - 1], c)
  }

  /** The first component of `os.path.splitext(path)` on POSIX: the path without its
      extension, where the extension is the text from the last dot of the last path
      component, unless everything before that dot in the component is dots. */
  function SplitExtRoot(path: string): (root: string)
    ensures IsPrefix(root, path)
    ensures root != path ==>
      && path[|root|] == '.'
      && (forall i :: |root| < i < |path| ==> path[i] != '.' && path[i] != '/')
      && (exists i :: 0 <= i < |root| && root[i] != '.' && root[i] != '/'
                       && forall j :: i < j < |root| ==> root[j] != '/')
    ensures root == path ==>
      var sep := RFind(path, '/');
      var dot := RFind(path, '.');
      dot <= sep || forall i :: sep + 1 <= i < dot ==> path[i] == '.'
  {
    var sep := RFind(path, '/');
    var dot := RFind(path, '.');
    if sep < dot && exists i | sep + 1 <= i < dot :: path[i] != '.' then
      path[..dot]
    else
      path
  }
}
