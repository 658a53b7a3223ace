/** The download name of index.php: `preg_replace('/\W+/', '_', $term)`
    inside `numinfo_<...>.csv`. Without the /u flag, \w is ASCII
    [A-Za-z0-9_]; every other character forms part of a non-word run. */
module Filename {

  predicate IsWordChar(c: char)
  {
    'a' <= c <= 'z' || 'A' <= c <= 'Z' || '0' <= c <= '9' || c == '_'
  }

  predicate AllWord(s: string)
  {
    forall i :: 0 <= i < |s| ==> IsWordChar(s[i])
  }

  /** The text after the non-word run at the start of s. */
  function SkipNonWord(s: string): (r: string)
    ensures |r| <= |s|
    ensures r == s[|s| - |r|..]
    ensures r == [] || IsWordChar(r[0])
    ensures forall i :: 0 <= i < |s| - |r| ==> !IsWordChar(s[i])
  {
    if s == [] || IsWordChar(s[0]) then s else SkipNonWord(s[1..])
  }

  /** Each maximal run of non-word characters becomes one '_'. */
  function Sanitise(s: string): (r: string)
    ensures AllWord(r)
    ensures |r| <= |s|
    decreases |s|
  {
    if s == [] then []
    else if IsWordChar(s[0]) then [s[0]] + Sanitise(s[1..])
    else "_" + Sanitise(SkipNonWord(s[1..]))
  }

  /** A string of word characters is left as it is. */
  lemma {:induction false} SanitiseKeepsWordStrings(s: string)
    requires AllWord(s)
    ensures Sanitise(s) == s
  {
    if s != [] {
      assert AllWord(s[1..]) by {
        forall i | 0 <= i < |s[1..]| ensures IsWordChar(s[1..][i]) {
          assert s[1..][i] == s[i + 1];
        }
      }
      SanitiseKeepsWordStrings(s[1..]);
    }
  }

  /** Sanitising twice is sanitising once. */
  lemma SanitiseIdempotent(s: string)
    ensures Sanitise(Sanitise(s)) == Sanitise(s)
  {
    SanitiseKeepsWordStrings(Sanitise(s));
  }

  /** The characters of s that satisfy keep, in order. */
  function Filter(s: string, keep: char -> bool): (r: string)
    ensures |r| <= |s|
  {
    if s == [] then []
    else if keep(s[0]) then [s[0]] + Filter(s[1..], keep)
    else Filter(s[1..], keep)
  }

  /** Skipping a non-word run drops no word character. */
  lemma {:induction false} SkipNonWordKeeps(s: string, keep: char -> bool)
    requires forall c :: keep(c) ==> IsWordChar(c)
    ensures Filter(SkipNonWord(s), keep) == Filter(s, keep)
  {
    if s != [] && !IsWordChar(s[0]) {
      SkipNonWordKeeps(s[1..], keep);
    }
  }

  /** Letters and digits: the word characters that the replacement never
      produces. */
  predicate IsAlnum(c: char)
  {
    'a' <= c <= 'z' || 'A' <= c <= 'Z' || '0' <= c <= '9'
  }

  /** The letters and digits of the output are exactly those of the input,
      in the same order. */
  lemma {:induction false} SanitiseKeepsAlnum(s: string)
    ensures Filter(Sanitise(s), IsAlnum) == Filter(s, IsAlnum)
    decreases |s|
  {
    if s != [] {
      if IsWordChar(s[0]) {
        SanitiseKeepsAlnum(s[1..]);
        assert ([s[0]] + Sanitise(s[1..]))[1..] == Sanitise(s[1..]);
      } else {
        var rest := SkipNonWord(s[1..]);
        SanitiseKeepsAlnum(rest);
        SkipNonWordKeeps(s[1..], IsAlnum);
        assert ("_" + Sanitise(rest))[1..] == Sanitise(rest);
      }
    }
  }

  /** a can be obtained from b by deleting characters. */
  predicate IsSubsequence(a: string, b: string)
    decreases |b|
  {
    if a == [] then true
    else if b == [] then false
    else if a[0] == b[0] then IsSubsequence(a[1..], b[1..])
    else IsSubsequence(a, b[1..])
  }

  lemma {:induction false} SubsequenceDropFirst(a: string, b: string)
    requires a != [] && IsSubsequence(a, b)
    ensures IsSubsequence(a[1..], b)
    decreases |b|, 0
  {
    if a[0] != b[0] {
      SubsequenceDropFirst(a, b[1..]);
      SubsequencePrepend(a[1..], b[1..], b[0]);
      assert [b[0]] + b[1..] == b;
    } else if a[1..] != [] {
      SubsequencePrepend(a[1..], b[1..], b[0]);
      assert [b[0]] + b[1..] == b;
    }
  }

  lemma {:induction false} SubsequencePrepend(a: string, b: string, c: char)
    requires IsSubsequence(a, b)
    ensures IsSubsequence(a, [c] + b)
    decreases |b|, 1
  {
    assert ([c] + b)[1..] == b;
    if a != [] && a[0] == c {
      SubsequenceDropFirst(a, b);
    }
  }

  /** The word characters of the input survive, in order, in the output. */
  lemma {:induction false} SanitiseKeepsWordChars(s: string)
    ensures IsSubsequence(Filter(s, IsWordChar), Sanitise(s))
    decreases |s|
  {
    if s != [] {
      if IsWordChar(s[0]) {
        SanitiseKeepsWordChars(s[1..]);
        assert ([s[0]] + Sanitise(s[1..]))[1..] == Sanitise(s[1..]);
        assert ([s[0]] + Filter(s[1..], IsWordChar))[1..] == Filter(s[1..], IsWordChar);
      } else {
        var rest := SkipNonWord(s[1..]);
        SanitiseKeepsWordChars(rest);
        SkipNonWordKeeps(s[1..], IsWordChar);
        SubsequencePrepend(Filter(rest, IsWordChar), Sanitise(rest), '_');
      }
    }
  }

  predicate NoneWord(s: string)
  {
    forall i :: 0 <= i < |s| ==> !IsWordChar(s[i])
  }

  /** Skipping a whole non-word run stops at the text after it. */
  lemma {:induction false} SkipWholeRun(n: string, r: string)
    requires NoneWord(n)
    requires r == [] || IsWordChar(r[0])
    ensures SkipNonWord(n + r) == r
  {
    if n == [] {
      assert n + r == r;
    } else {
      assert (n + r)[0] == n[0];
      assert (n + r)[1..] == n[1..] + r;
      assert NoneWord(n[1..]) by {
        forall i | 0 <= i < |n[1..]| ensures !IsWordChar(n[1..][i]) {
          assert n[1..][i] == n[i + 1];
        }
      }
      SkipWholeRun(n[1..], r);
    }
  }

  /** A leading non-word run becomes one '_'. */
  lemma SanitiseLeadingRun(n: string, r: string)
    requires n != [] && NoneWord(n)
    requires r == [] || IsWordChar(r[0])
    ensures Sanitise(n + r) == "_" + Sanitise(r)
  {
    var s := n + r;
    assert s[0] == n[0];
    assert s[1..] == n[1..] + r;
    assert NoneWord(n[1..]) by {
      forall i | 0 <= i < |n[1..]| ensures !IsWordChar(n[1..][i]) {
        assert n[1..][i] == n[i + 1];
      }
    }
    SkipWholeRun(n[1..], r);
  }

  /** Leading word characters are kept as they are. */
  lemma {:induction false} SanitiseWordPrefix(w: string, t: string)
    requires AllWord(w)
    ensures Sanitise(w + t) == w + Sanitise(t)
  {
    if w == [] {
      assert w + t == t;
    } else {
      var s := w + t;
      assert s[0] == w[0];
      assert s[1..] == w[1..] + t;
      assert AllWord(w[1..]) by {
        forall i | 0 <= i < |w[1..]| ensures IsWordChar(w[1..][i]) {
          assert w[1..][i] == w[i + 1];
        }
      }
      SanitiseWordPrefix(w[1..], t);
      assert [w[0]] + (w[1..] + Sanitise(t)) == w + Sanitise(t);
    }
  }

  /** A maximal run of non-word characters, however long, becomes exactly one
      '_', and the word characters before it are kept as they are. */
  lemma SanitiseRun(w: string, n: string, r: string)
    requires AllWord(w)
    requires n != [] && NoneWord(n)
    requires r == [] || IsWordChar(r[0])
    ensures Sanitise(w + n + r) == w + "_" + Sanitise(r)
  {
    var t := n + r;
    var rest := Sanitise(r);
    assert w + n + r == w + t;
    assert Sanitise(w + t) == w + Sanitise(t) by { SanitiseWordPrefix(w, t); }
    assert Sanitise(t) == "_" + rest by { SanitiseLeadingRun(n, r); }
    assert w + ("_" + rest) == w + "_" + rest;
  }

  /** Two spaces between words become one underscore, not two. */
  lemma SanitiseDoubleSpace()
    ensures Sanitise("a  b") == "a_b"
  {
    var w, n, r: string := "a", "  ", "b";
    assert AllWord(w) && AllWord(r) && IsWordChar(r[0]);
    assert NoneWord(n) by { assert !IsWordChar(n[0]) && !IsWordChar(n[1]); }
    assert Sanitise(w + n + r) == w + "_" + Sanitise(r) by { SanitiseRun(w, n, r); }
    assert Sanitise(r) == r by { SanitiseKeepsWordStrings(r); }
    assert w + n + r == "a  b" && w + "_" + r == "a_b";
  }

  /** The attachment name of the CSV download. */
  function AttachmentName(term: string): string
  {
    "numinfo_" + Sanitise(term) + ".csv"
  }

  /** The name starts with numinfo_ and ends in .csv, and in between holds
      only word characters, so it cannot close the quoted filename of the
      Content-Disposition header, break its line or name a directory. */
  lemma AttachmentNameIsSafe(term: string)
    ensures var n := AttachmentName(term);
      && n[..8] == "numinfo_" && n[|n| - 4..] == ".csv"
      && AllWord(n[8..|n| - 4])
      && forall i :: 0 <= i < |n| ==> n[i] != '"' && n[i] != '\r' && n[i] != '\n' && n[i] != '/' && n[i] != '\\'
  {
    var n := AttachmentName(term);
    var middle := Sanitise(term);
    assert n[8..|n| - 4] == middle;
    forall i | 0 <= i < |n| ensures n[i] != '"' && n[i] != '\r' && n[i] != '\n' && n[i] != '/' && n[i] != '\\' {
      if 8 <= i < |n| - 4 {
        assert n[i] == middle[i - 8];
      }
    }
  }

  /** A phone number with a leading plus and a space: each non-word run
      becomes one underscore. */
  lemma SanitisePhoneNumber()
    ensures Sanitise("+91 98") == "_91_98"
  {
    var d: string := "98";
    SanitiseKeepsWordStrings(d);
    var t: string := " 98";
    assert t[1..] == d;
    assert SkipNonWord(d) == d;
    assert Sanitise(t) == "_" + d;
    var u1: string := "1 98";
    assert u1[1..] == t;
    assert Sanitise(u1) == "1_98";
    var u: string := "91 98";
    assert u[1..] == u1;
    assert Sanitise(u) == "91_98";
    var s: string := "+91 98";
    assert s[1..] == u;
    assert SkipNonWord(u) == u;
  }
}
