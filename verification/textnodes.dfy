/**
  Text-node helpers shared by the noun and verb extractors: Python's
  `unicode.strip()`, the literal `"/ "` prefix removal, and the error raised
  when a fixed offset lies beyond the text nodes a cell has.
 */
module TextNodes {

  /** An `IndexError` from indexing a cell's text-node list at a fixed offset. */
  datatype ExtractError = TooFewTextNodes(cell: string, needed: nat, found: nat)

  /** Python 2.7 `unicode.isspace()`. */
  predicate IsSpace(c: char) {
    || ('\t' <= c <= '\r')
    || ('\U{001C}' <= c <= ' ')
    || c == '\U{0085}' || c == '\U{00A0}' || c == '\U{1680}' || c == '\U{180E}'
    || ('\U{2000}' <= c <= '\U{200A}')
    || c == '\U{2028}' || c == '\U{2029}' || c == '\U{202F}' || c == '\U{205F}' || c == '\U{3000}'
  }

  predicate AllSpace(s: string) {
    forall i :: 0 <= i < |s| ==> IsSpace(s[i])
  }

  /** Every character of `s` from `lo` up to `hi` is whitespace. */
  predicate SpaceBetween(s: string, lo: nat, hi: nat)
    requires lo <= hi <= |s|
  {
    forall k :: lo <= k < hi ==> IsSpace(s[k])
  }

  /** Leading whitespace removed. */
  function TrimStart(s: string): string {
    if |s| > 0 && IsSpace(s[0]) then TrimStart(s[1..]) else s
  }

  /** Trailing whitespace removed. */
  function TrimEnd(s: string): string {
    if |s| > 0 && IsSpace(s[|s| - 1]) then TrimEnd(s[..|s| - 1]) else s
  }

  /** `s.strip()`: no longer than `s`, and no whitespace left at either end (`TrimSpec` places it in `s`). */
  function Trim(s: string): (r: string)
    ensures |r| <= |s|
    ensures r == [] || (!IsSpace(r[0]) && !IsSpace(r[|r| - 1]))
  {
    TrimStartSpec(s);
    TrimEndSpec(TrimStart(s));
    var r := TrimEnd(TrimStart(s));
    assert r != [] ==> r[0] == TrimStart(s)[0];
    r
  }

  /** Removing leading whitespace leaves the longest suffix that does not start with whitespace. */
  lemma {:induction false} TrimStartSpec(s: string)
    ensures var r := TrimStart(s);
            && |r| <= |s| && r == s[|s| - |r|..]
            && SpaceBetween(s, 0, |s| - |r|)
            && (r == [] || !IsSpace(r[0]))
    decreases |s|
  {
    if |s| > 0 && IsSpace(s[0]) {
      TrimStartSpec(s[1..]);
      var r := TrimStart(s);
      assert s[1..][|s| - 1 - |r|..] == s[|s| - |r|..];
      forall k | 0 < k < |s| - |r|
        ensures IsSpace(s[k])
      {
        assert s[k] == s[1..][k - 1];
      }
    }
  }

  /** Removing trailing whitespace leaves the longest prefix that does not end with whitespace. */
  lemma {:induction false} TrimEndSpec(s: string)
    ensures var r := TrimEnd(s);
            && |r| <= |s| && r == s[..|r|]
            && SpaceBetween(s, |r|, |s|)
            && (r == [] || !IsSpace(r[|r| - 1]))
    decreases |s|
  {
    if |s| > 0 && IsSpace(s[|s| - 1]) {
      TrimEndSpec(s[..|s| - 1]);
      var r := TrimEnd(s);
      assert s[..|s| - 1][..|r|] == s[..|r|];
    }
  }

  /** How many whitespace characters `strip()` removes at the front. */
  function LeadingSpace(s: string): nat {
    TrimStartSpec(s);
    |s| - |TrimStart(s)|
  }

  /**
    `strip()` returns the slice of `s` that starts after its leading
    whitespace, with only whitespace after it, and with no whitespace at
    either of its own ends.
   */
  lemma TrimSpec(s: string)
    ensures var r, n := Trim(s), LeadingSpace(s);
            && n + |r| <= |s| && r == s[n..n + |r|]
            && SpaceBetween(s, 0, n) && SpaceBetween(s, n + |r|, |s|)
            && (r == [] || (!IsSpace(r[0]) && !IsSpace(r[|r| - 1])))
  {
    var t := TrimStart(s);
    TrimStartSpec(s);
    TrimEndSpec(t);
    TrimFrame(s, LeadingSpace(s), t, TrimEnd(t));
    if Trim(s) != [] {
      assert Trim(s)[0] == t[0];
    }
  }

  /** Trimming the end of a suffix of `s` leaves a slice of `s` followed by whitespace only. */
  lemma TrimFrame(s: string, n: nat, t: string, r: string)
    requires n <= |s| && t == s[n..]
    requires |r| <= |t| && r == t[..|r|] && SpaceBetween(t, |r|, |t|)
    ensures n + |r| <= |s| && r == s[n..n + |r|]
    ensures SpaceBetween(s, n + |r|, |s|)
  {
    forall k | n + |r| <= k < |s|
      ensures IsSpace(s[k])
    {
      assert s[k] == t[k - n];
    }
  }

  /** A string with no whitespace at either end is its own trimming. */
  lemma TrimOfTrimmed(s: string)
    requires s == [] || (!IsSpace(s[0]) && !IsSpace(s[|s| - 1]))
    ensures Trim(s) == s
  {
  }

  lemma TrimIdempotent(s: string)
    ensures Trim(Trim(s)) == Trim(s)
  {
    TrimSpec(s);
    TrimOfTrimmed(Trim(s));
  }

  lemma {:induction false} TrimStartPadded(pre: string, x: string)
    requires AllSpace(pre)
    requires x == [] || !IsSpace(x[0])
    ensures TrimStart(pre + x) == x
    decreases |pre|
  {
    if pre != [] {
      assert (pre + x)[1..] == pre[1..] + x;
      TrimStartPadded(pre[1..], x);
    } else {
      assert pre + x == x;
    }
  }

  lemma {:induction false} TrimEndPadded(x: string, post: string)
    requires AllSpace(post)
    requires x == [] || !IsSpace(x[|x| - 1])
    ensures TrimEnd(x + post) == x
    decreases |post|
  {
    if post != [] {
      var post' := post[..|post| - 1];
      assert (x + post)[..|x + post| - 1] == x + post';
      TrimEndPadded(x, post');
    } else {
      assert x + post == x;
    }
  }

  /** Whitespace added around a word is exactly what trimming takes away. */
  lemma TrimPadded(pre: string, w: string, post: string)
    requires AllSpace(pre) && AllSpace(post)
    requires w == [] || (!IsSpace(w[0]) && !IsSpace(w[|w| - 1]))
    ensures Trim(pre + w + post) == w
  {
    assert pre + w + post == pre + (w + post);
    if w == [] {
      assert w + post == post;
      TrimStartPadded(pre + post, []);
      assert pre + post + [] == pre + w + post;
    } else {
      TrimStartPadded(pre, w + post);
      TrimEndPadded(w, post);
    }
  }

  /** The literal prefix the plural headword cell starts with. */
  const SlashPrefix: string := "/ "

  /** The anchored substitution of the plural's prefix: one leading `"/ "` removed when present. */
  function StripSlashPrefix(s: string): (r: string)
    ensures |s| >= 2 && s[..2] == SlashPrefix ==> s == SlashPrefix + r
    ensures !(|s| >= 2 && s[..2] == SlashPrefix) ==> r == s
  {
    if |s| >= 2 && s[..2] == SlashPrefix then s[2..] else s
  }

  /** The removal undoes the prefix, once: a second `"/ "` in the text stays. */
  lemma StripSlashPrefixInverse(w: string)
    ensures StripSlashPrefix(SlashPrefix + w) == w
    ensures StripSlashPrefix(SlashPrefix + SlashPrefix + w) == SlashPrefix + w
  {
    assert (SlashPrefix + w)[..2] == SlashPrefix;
    assert (SlashPrefix + SlashPrefix + w)[..2] == SlashPrefix;
    assert (SlashPrefix + SlashPrefix + w)[2..] == SlashPrefix + w;
  }
}
