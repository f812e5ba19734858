/**
 * `slugify`: `name.replace(/\s+/g, '-')`, which turns every maximal run of
 * whitespace into a single `-`. The game uses it to build the element ids
 * `ship-<slug>` of the ship list.
 */
module Slug {

  /** The characters JavaScript's `\s` matches: WhiteSpace and LineTerminator. */
  const Whitespace: set<char> := {
    '\t', '\n', '\U{000B}', '\U{000C}', '\r', ' ', '\U{00A0}', '\U{1680}',
    '\U{2000}', '\U{2001}', '\U{2002}', '\U{2003}', '\U{2004}', '\U{2005}',
    '\U{2006}', '\U{2007}', '\U{2008}', '\U{2009}', '\U{200A}',
    '\U{2028}', '\U{2029}', '\U{202F}', '\U{205F}', '\U{3000}', '\U{FEFF}'
  }

  predicate IsSpace(ch: char) { ch in Whitespace }

  predicate NoSpace(s: string) { forall i :: 0 <= i < |s| ==> !IsSpace(s[i]) }

  predicate AllSpace(s: string) { forall i :: 0 <= i < |s| ==> IsSpace(s[i]) }

  /** An ASCII letter, which is never whitespace. */
  predicate IsLetter(ch: char) { 'A' <= ch <= 'Z' || 'a' <= ch <= 'z' }

  lemma LettersNoSpace(w: string)
    requires forall i :: 0 <= i < |w| ==> IsLetter(w[i])
    ensures NoSpace(w)
  {
  }

  /** `s` without its leading run of whitespace. */
  function SkipSpaces(s: string): (r: string)
    ensures |r| <= |s|
    ensures s != [] && IsSpace(s[0]) ==> |r| < |s|
    ensures r == [] || !IsSpace(r[0])
  {
    if s != [] && IsSpace(s[0]) then SkipSpaces(s[1..]) else s
  }

  /** What `SkipSpaces` keeps is a suffix of its input, and what it drops is whitespace. */
  lemma {:induction false} SkipSpacesSuffix(s: string)
    ensures SkipSpaces(s) == s[|s| - |SkipSpaces(s)|..]
    ensures AllSpace(s[..|s| - |SkipSpaces(s)|])
    decreases |s|
  {
    if s != [] && IsSpace(s[0]) {
      SkipSpacesSuffix(s[1..]);
      var n := |s| - |SkipSpaces(s)|;
      assert s[1..][n - 1..] == s[n..];
      assert forall i :: 1 <= i < n ==> s[..n][i] == s[1..][..n - 1][i - 1];
    }
  }

  /**
   * The slug of `s`: never longer than `s`, empty only for the empty string,
   * and beginning with `-` exactly when `s` begins with whitespace (otherwise
   * with the same first character).
   */
  function Slugify(s: string): (r: string)
    ensures |r| <= |s|
    ensures r == [] <==> s == []
    ensures s != [] ==> (r[0] == '-' <==> IsSpace(s[0]) || s[0] == '-')
    ensures s != [] && !IsSpace(s[0]) ==> r[0] == s[0]
    decreases |s|
  {
    if s == [] then []
    else if IsSpace(s[0]) then "-" + Slugify(SkipSpaces(s))
    else [s[0]] + Slugify(s[1..])
  }

  /** A slug holds no whitespace. */
  lemma {:induction false} SlugifyNoSpace(s: string)
    ensures NoSpace(Slugify(s))
    decreases |s|
  {
    if s == [] {
    } else if IsSpace(s[0]) {
      assert !IsSpace('-');
      SlugifyNoSpace(SkipSpaces(s));
    } else {
      SlugifyNoSpace(s[1..]);
    }
  }

  /** A whitespace run followed by a non-space (or the end) leaves as one `-`. */
  lemma SkipSpacesRun(w: string, t: string)
    requires AllSpace(w)
    requires t == [] || !IsSpace(t[0])
    ensures SkipSpaces(w + t) == t
    decreases |w|
  {
    if w != [] {
      assert (w + t)[1..] == w[1..] + t;
      SkipSpacesRun(w[1..], t);
    } else {
      assert w + t == t;
    }
  }

  lemma SlugifyRun(w: string, t: string)
    requires w != [] && AllSpace(w)
    requires t == [] || !IsSpace(t[0])
    ensures Slugify(w + t) == "-" + Slugify(t)
  {
    SkipSpacesRun(w, t);
  }

  /** A name without whitespace is its own slug. */
  lemma {:induction false} SlugifyIdentity(s: string)
    requires NoSpace(s)
    ensures Slugify(s) == s
    decreases |s|
  {
    if s != [] {
      SlugifyIdentity(s[1..]);
    }
  }

  lemma SlugifyIdempotent(s: string)
    ensures Slugify(Slugify(s)) == Slugify(s)
  {
    SlugifyNoSpace(s);
    SlugifyIdentity(Slugify(s));
  }

  /** Skipping the leading whitespace of `a + b` stops inside `a` unless `a` is all whitespace. */
  lemma {:induction false} SkipSpacesConcat(a: string, b: string)
    requires SkipSpaces(a) != [] || b == [] || !IsSpace(b[0])
    ensures SkipSpaces(a + b) == SkipSpaces(a) + b
    decreases |a|
  {
    if a == [] {
      assert a + b == b;
    } else if IsSpace(a[0]) {
      assert (a + b)[1..] == a[1..] + b;
      SkipSpacesConcat(a[1..], b);
    }
  }

  /** No whitespace run straddles the join of `a` and `b`. */
  predicate Joinable(a: string, b: string)
  {
    a == [] || b == [] || !IsSpace(a[|a| - 1]) || !IsSpace(b[0])
  }

  /**
   * Slugs compose: the slug of `a + b` is the slug of `a` followed by the
   * slug of `b`, unless a whitespace run straddles the join.
   */
  lemma {:induction false} SlugifyConcat(a: string, b: string)
    requires Joinable(a, b)
    ensures Slugify(a + b) == Slugify(a) + Slugify(b)
    decreases |a|
  {
    if a == [] {
      assert a + b == b;
    } else if IsSpace(a[0]) {
      SlugifyConcatRest(a, b);
      SlugifyConcat(SkipSpaces(a), b);
      SlugifyConcatSpace(a, b);
    } else {
      JoinableTail(a, b);
      SlugifyConcat(a[1..], b);
      SlugifyConcatHead(a, b);
    }
  }

  /** The step of `SlugifyConcat` when `a` opens with a non-space. */
  lemma SlugifyConcatHead(a: string, b: string)
    requires a != [] && !IsSpace(a[0])
    requires Slugify(a[1..] + b) == Slugify(a[1..]) + Slugify(b)
    ensures Slugify(a + b) == Slugify(a) + Slugify(b)
  {
    assert (a + b)[0] == a[0];
    assert (a + b)[1..] == a[1..] + b;
    ConcatAssoc([a[0]], Slugify(a[1..]), Slugify(b));
  }

  /** The step of `SlugifyConcat` when `a` opens with whitespace. */
  lemma SlugifyConcatSpace(a: string, b: string)
    requires a != [] && IsSpace(a[0]) && Joinable(a, b)
    requires Slugify(SkipSpaces(a) + b) == Slugify(SkipSpaces(a)) + Slugify(b)
    ensures Slugify(a + b) == Slugify(a) + Slugify(b)
  {
    SlugifyConcatRest(a, b);
    ConcatAssoc("-", Slugify(SkipSpaces(a)), Slugify(b));
  }

  lemma ConcatAssoc(c: string, x: string, y: string)
    ensures c + (x + y) == (c + x) + y
  {
  }

  lemma JoinableTail(a: string, b: string)
    requires a != [] && Joinable(a, b)
    ensures Joinable(a[1..], b)
  {
    if |a| > 1 {
      assert a[1..][|a| - 2] == a[|a| - 1];
    }
  }

  /** The step of `SlugifyConcat` when `a` opens with whitespace. */
  lemma SlugifyConcatRest(a: string, b: string)
    requires a != [] && IsSpace(a[0]) && Joinable(a, b)
    ensures Joinable(SkipSpaces(a), b) && |SkipSpaces(a)| < |a|
    ensures Slugify(a) == "-" + Slugify(SkipSpaces(a))
    ensures Slugify(a + b) == "-" + Slugify(SkipSpaces(a) + b)
  {
    var rest := SkipSpaces(a);
    assert (a + b)[0] == a[0];
    SkipSpacesSuffix(a);
    if rest != [] {
      assert a[|a| - 1] == rest[|rest| - 1];
    } else {
      assert a[..|a| - |rest|] == a;
    }
    SkipSpacesConcat(a, b);
  }
}
