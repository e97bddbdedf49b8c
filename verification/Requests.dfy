/** Requests on the wire: when the text received so far makes a request. */
module Requests {
  const NUL := '\0'

  /** A buffer as the string functions see it: up to its first NUL. */
  function CString(s: string): (r: string)
    ensures r <= s && NUL !in r
    ensures |r| < |s| ==> s[|r|] == NUL
  {
    if s == "" || s[0] == NUL then "" else [s[0]] + CString(s[1..])
  }

  /** `strstr`: the pattern starts somewhere. */
  predicate Has(s: string, pattern: string) {
    pattern <= s || (s != "" && Has(s[1..], pattern))
  }

  /** The test of `read_cb`: a line break pair shows before the first NUL. */
  predicate Complete(s: string) {
    s != "" && (Has(CString(s), "\r\n") || Has(CString(s), "\n\n"))
  }

  /** A CR LF or two LF stand in the text, with no NUL before them. */
  ghost predicate HasLineEnd(s: string) {
    exists i :: LineEndAt(s, i)
  }

  ghost predicate LineEndAt(s: string, i: int) {
    ShownAt(s, i, "\r\n") || ShownAt(s, i, "\n\n")
  }

  /** Two characters stand at `i`, with no NUL up to them. */
  ghost predicate ShownAt(s: string, i: int, pair: string) {
    0 <= i < |s| - 1 && NUL !in s[..i + 2] && s[i..i + 2] == pair
  }

  lemma ShownIff(s: string, pair: string)
    requires |pair| == 2
    ensures Has(CString(s), pair) <==> exists i :: ShownAt(s, i, pair)
  {
    var c := CString(s);
    HasIff(c, pair);
    if i :| 0 <= i <= |c| && pair <= c[i..] {
      assert c[i..][..2] == s[i..i + 2] && s[..i + 2] == c[..i + 2];
      assert ShownAt(s, i, pair);
    }
    if i :| ShownAt(s, i, pair) {
      ShownWithin(s, i, pair);
    }
  }

  lemma ShownWithin(s: string, i: int, pair: string)
    requires |pair| == 2 && ShownAt(s, i, pair)
    ensures i + 2 <= |CString(s)| && pair <= CString(s)[i..]
  {
    var c := CString(s);
    forall k | 0 <= k < i + 2
      ensures s[k] != NUL
    {
      assert s[..i + 2][k] in s[..i + 2];
    }
    assert c[i..][..2] == s[i..i + 2];
  }

  /** The test of `read_cb` holds on a text exactly if the text has one. */
  lemma CompleteIff(s: string)
    ensures Complete(s) <==> HasLineEnd(s)
  {
    ShownIff(s, "\r\n");
    ShownIff(s, "\n\n");
    if i :| ShownAt(s, i, "\r\n") {
      assert LineEndAt(s, i);
    } else if i :| ShownAt(s, i, "\n\n") {
      assert LineEndAt(s, i);
    }
  }

  ghost function Concat(chunks: seq<string>): string {
    if chunks == [] then "" else Concat(chunks[..|chunks| - 1]) + chunks[|chunks| - 1]
  }

  lemma ConcatSnoc(chunks: seq<string>, c: string)
    ensures Concat(chunks + [c]) == Concat(chunks) + c
  {
    assert (chunks + [c])[..|chunks|] == chunks;
  }

  /** Texts that grow part by part. */
  lemma {:induction false} PartsConcat(texts: seq<string>, parts: seq<string>, k: nat)
    requires k <= |parts| < |texts| && forall i | 0 <= i < k :: texts[i + 1] == texts[i] + parts[i]
    ensures texts[k] == texts[0] + Concat(parts[..k])
  {
    if k > 0 {
      PartsConcat(texts, parts, k - 1);
      ConcatSnoc(parts[..k - 1], parts[k - 1]);
      assert parts[..k] == parts[..k - 1] + [parts[k - 1]];
    }
  }

  lemma {:induction false} CStringGrows(s: string, t: string)
    ensures CString(s) <= CString(s + t)
    ensures CString(s + [NUL]) == CString(s)
    decreases |s|
  {
    if s != "" && s[0] != NUL {
      CStringGrows(s[1..], t);
      assert (s + t)[1..] == s[1..] + t && (s + [NUL])[1..] == s[1..] + [NUL];
    }
  }

  /** Without a NUL inside, a terminated buffer is seen in full. */
  lemma {:induction false} CStringOf(s: string)
    requires NUL !in s
    ensures CString(s + [NUL]) == s
    decreases |s|
  {
    if s != "" {
      CStringOf(s[1..]);
      assert (s + [NUL])[1..] == s[1..] + [NUL];
    }
  }

  lemma {:induction false} HasIff(s: string, pattern: string)
    ensures Has(s, pattern) <==> exists i :: 0 <= i <= |s| && pattern <= s[i..]
    decreases |s|
  {
    if pattern <= s {
      assert pattern <= s[0..];
    } else if s != "" {
      HasIff(s[1..], pattern);
      assert forall i | 0 <= i < |s| :: s[1..][i..] == s[i + 1..];
      if i :| 0 <= i <= |s| && pattern <= s[i..] {
        assert s[0..] == s;
        assert pattern <= s[1..][i - 1..];
      }
      if i :| 0 <= i <= |s[1..]| && pattern <= s[1..][i..] {
        assert pattern <= s[i + 1..];
      }
    }
  }

  lemma {:induction false} HasGrows(s: string, t: string, pattern: string)
    requires s <= t && Has(s, pattern)
    ensures Has(t, pattern)
    decreases |s|
  {
    if !(pattern <= s) {
      HasGrows(s[1..], t[1..], pattern);
    }
  }

  /** A complete request stays complete, whatever follows. */
  lemma CompleteGrows(s: string, t: string)
    requires Complete(s)
    ensures Complete(s + t)
  {
    CStringGrows(s, t);
    if Has(CString(s), "\r\n") {
      HasGrows(CString(s), CString(s + t), "\r\n");
    } else {
      HasGrows(CString(s), CString(s + t), "\n\n");
    }
  }

  /** No earlier chunk boundary had a complete request. */
  ghost predicate NotBefore(chunks: seq<string>) {
    forall k | 0 <= k < |chunks| :: !Complete(Concat(chunks[..k]))
  }

  lemma NotBeforeSnoc(chunks: seq<string>, c: string)
    requires NotBefore(chunks) && !Complete(Concat(chunks))
    ensures NotBefore(chunks + [c])
  {
    forall k | 0 <= k < |chunks + [c]|
      ensures !Complete(Concat((chunks + [c])[..k]))
    {
      assert (chunks + [c])[..k] == chunks[..k];
      assert chunks[..|chunks|] == chunks;
    }
  }

  lemma {:induction false} ConcatPrefix(chunks: seq<string>, k: nat)
    requires k <= |chunks|
    ensures Concat(chunks[..k]) <= Concat(chunks)
    decreases |chunks|
  {
    if k < |chunks| {
      var init := chunks[..|chunks| - 1];
      assert init[..k] == chunks[..k];
      ConcatPrefix(init, k);
    } else {
      assert chunks[..k] == chunks;
    }
  }

  /** Some boundary of a chunking has a complete request exactly when the whole text is
      one: cutting the text otherwise, even inside the delimiter, changes nothing. */
  lemma AnyChunking(chunks: seq<string>)
    ensures (exists k :: 0 <= k <= |chunks| && Complete(Concat(chunks[..k]))) <==> Complete(Concat(chunks))
  {
    assert chunks[..|chunks|] == chunks;
    if k :| 0 <= k <= |chunks| && Complete(Concat(chunks[..k])) {
      ConcatPrefix(chunks, k);
      var s, t := Concat(chunks[..k]), Concat(chunks);
      CompleteGrows(s, t[|s|..]);
      assert s + t[|s|..] == t;
    }
  }
}
