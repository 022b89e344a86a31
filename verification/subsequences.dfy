/** Order-preserving subsequences: `s` is obtained from `t` by deleting
    elements. Used to state what the erase-and-rewind loops keep. */
module Subsequences {

  predicate IsSubsequence<T(==)>(s: seq<T>, t: seq<T>)
    decreases |t|
  {
    if |s| == 0 then true
    else if |t| == 0 then false
    else (s[0] == t[0] && IsSubsequence(s[1..], t[1..])) || IsSubsequence(s, t[1..])
  }

  lemma {:induction false} SubsequenceLength<T>(s: seq<T>, t: seq<T>)
    requires IsSubsequence(s, t)
    ensures |s| <= |t|
    decreases |t|
  {
    if |s| > 0 {
      if s[0] == t[0] && IsSubsequence(s[1..], t[1..]) {
        SubsequenceLength(s[1..], t[1..]);
      } else {
        SubsequenceLength(s, t[1..]);
      }
    }
  }

  lemma {:induction false} SubsequenceMembers<T>(s: seq<T>, t: seq<T>)
    requires IsSubsequence(s, t)
    ensures forall e :: e in s ==> e in t
    decreases |t|
  {
    if |s| > 0 {
      if s[0] == t[0] && IsSubsequence(s[1..], t[1..]) {
        SubsequenceMembers(s[1..], t[1..]);
        forall e | e in s ensures e in t {
          if e != s[0] {
            assert e in s[1..];
          }
        }
      } else {
        SubsequenceMembers(s, t[1..]);
      }
    }
  }

  lemma {:induction false} SubsequenceReflexive<T>(s: seq<T>)
    ensures IsSubsequence(s, s)
    decreases |s|
  {
    if |s| > 0 {
      SubsequenceReflexive(s[1..]);
    }
  }

  lemma {:induction false} SubsequenceTransitive<T>(a: seq<T>, b: seq<T>, c: seq<T>)
    requires IsSubsequence(a, b) && IsSubsequence(b, c)
    ensures IsSubsequence(a, c)
    decreases |c|
  {
    if |a| == 0 {
    } else if |c| == 0 {
      assert false;
    } else if IsSubsequence(b, c[1..]) {
      SubsequenceTransitive(a, b, c[1..]);
    } else {
      assert |b| > 0 && b[0] == c[0] && IsSubsequence(b[1..], c[1..]);
      if a[0] == b[0] && IsSubsequence(a[1..], b[1..]) {
        SubsequenceTransitive(a[1..], b[1..], c[1..]);
      } else {
        SubsequenceTransitive(a, b[1..], c[1..]);
      }
    }
  }

  /** Erasing index `i` (std::vector::erase) leaves a subsequence. */
  lemma {:induction false} EraseIsSubsequence<T>(s: seq<T>, i: int)
    requires 0 <= i < |s|
    ensures IsSubsequence(s[..i] + s[i+1..], s)
    decreases i
  {
    var r := s[..i] + s[i+1..];
    if i == 0 {
      assert r == s[1..];
      SubsequenceReflexive(s[1..]);
    } else {
      var t := s[1..];
      EraseIsSubsequence(t, i - 1);
      assert r[0] == s[0];
      assert r[1..] == t[..i - 1] + t[i..];
    }
  }

  /** Appending one element on both sides keeps the relation. */
  lemma {:induction false} AppendBoth<T>(s: seq<T>, t: seq<T>, e: T)
    requires IsSubsequence(s, t)
    ensures IsSubsequence(s + [e], t + [e])
    decreases |t|
  {
    if |s| == 0 {
      if |t| == 0 {
        assert IsSubsequence(([] + [e])[1..], (t + [e])[1..]);
      } else {
        AppendBoth(s, t[1..], e);
        assert (t + [e])[1..] == t[1..] + [e];
      }
    } else if s[0] == t[0] && IsSubsequence(s[1..], t[1..]) {
      AppendBoth(s[1..], t[1..], e);
      assert (s + [e])[1..] == s[1..] + [e];
      assert (t + [e])[1..] == t[1..] + [e];
    } else {
      AppendBoth(s, t[1..], e);
      assert (t + [e])[1..] == t[1..] + [e];
    }
  }

  /** Appending an element only to the longer side keeps the relation. */
  lemma {:induction false} AppendRight<T>(s: seq<T>, t: seq<T>, e: T)
    requires IsSubsequence(s, t)
    ensures IsSubsequence(s, t + [e])
    decreases |t|
  {
    if |s| > 0 {
      assert |t| > 0;
      assert (t + [e])[1..] == t[1..] + [e];
      if s[0] == t[0] && IsSubsequence(s[1..], t[1..]) {
        AppendRight(s[1..], t[1..], e);
      } else {
        AppendRight(s, t[1..], e);
      }
    }
  }
}
