/**
 * Normalisation of a Finger query line: the verbose token "/W" is deleted
 * and the surrounding whitespace trimmed, as FingerHandler.channelRead does
 * with `replacingOccurrences(of:with:)` and
 * `trimmingCharacters(in: .whitespacesAndNewlines)`.
 */
module Query {

  /** The RFC 1288 verbose-request token, which the handler removes and ignores. */
  const VERBOSE_KEY: string := "/W"

  /**
   * Membership in Foundation's `whitespacesAndNewlines`: Unicode general
   * category Z, the tab U+0009, U+000A..U+000D and U+0085.
   */
  predicate IsWhitespace(c: char)
  {
    || c == ' ' || c == '\t' || c == '\n' || c == '\U{000B}' || c == '\U{000C}' || c == '\r'
    || c == '\U{0085}' || c == '\U{00A0}' || c == '\U{1680}'
    || ('\U{2000}' <= c <= '\U{200A}')
    || c == '\U{2028}' || c == '\U{2029}' || c == '\U{202F}' || c == '\U{205F}' || c == '\U{3000}'
  }

  predicate AllWhitespace(s: string)
  {
    forall i :: 0 <= i < |s| ==> IsWhitespace(s[i])
  }

  /** Neither the first nor the last character is whitespace. */
  predicate NoEdgeWhitespace(s: string)
  {
    s == [] || (!IsWhitespace(s[0]) && !IsWhitespace(s[|s| - 1]))
  }

  /** `key` occurs somewhere in `s` as a contiguous piece. */
  predicate Occurs(s: string, key: string)
    decreases |s|
  {
    |key| <= |s| && (s[..|key|] == key || Occurs(s[1..], key))
  }

  /**
   * Deletes the occurrences of `key` found by one left-to-right scan, each
   * match resuming after the previous one (non-overlapping). An empty key
   * leaves the string as it is, like Foundation's replacement.
   */
  function RemoveAll(s: string, key: string): (r: string)
    ensures |r| <= |s|
    ensures key == [] ==> r == s
    decreases |s|
  {
    if key == [] || |s| < |key| then s
    else if s[..|key|] == key then RemoveAll(s[|key|..], key)
    else [s[0]] + RemoveAll(s[1..], key)
  }

  /** Removal only deletes characters, and changes the string exactly when the key occurs in it. */
  lemma {:induction false} RemoveAllDeletes(s: string, key: string)
    requires key != []
    ensures multiset(RemoveAll(s, key)) <= multiset(s)
    ensures RemoveAll(s, key) == s <==> !Occurs(s, key)
    decreases |s|
  {
    if |s| >= |key| {
      if s[..|key|] == key {
        assert s == s[..|key|] + s[|key|..];
        RemoveAllDeletes(s[|key|..], key);
      } else {
        assert s == [s[0]] + s[1..];
        RemoveAllDeletes(s[1..], key);
      }
    }
  }

  /** The first position at or after `i` that does not hold whitespace (|s| if none). */
  function SkipBlanks(s: string, i: nat): (k: nat)
    requires i <= |s|
    ensures i <= k <= |s|
    ensures k < |s| ==> !IsWhitespace(s[k])
    decreases |s| - i
  {
    if i < |s| && IsWhitespace(s[i]) then SkipBlanks(s, i + 1) else i
  }

  /** The end of the content before `j`: the whitespace run ending at `j` starts at the result. */
  function SkipBlanksBack(s: string, j: nat): (k: nat)
    requires j <= |s|
    ensures k <= j
    ensures k > 0 ==> !IsWhitespace(s[k - 1])
    decreases j
  {
    if j > 0 && IsWhitespace(s[j - 1]) then SkipBlanksBack(s, j - 1) else j
  }

  /** Everything SkipBlanks passes over is whitespace. */
  lemma {:induction false} SkippedAreBlank(s: string, i: nat)
    requires i <= |s|
    ensures forall k :: i <= k < SkipBlanks(s, i) ==> IsWhitespace(s[k])
    decreases |s| - i
  {
    if i < |s| && IsWhitespace(s[i]) {
      SkippedAreBlank(s, i + 1);
    }
  }

  /** Everything SkipBlanksBack passes over is whitespace. */
  lemma {:induction false} SkippedBackAreBlank(s: string, j: nat)
    requires j <= |s|
    ensures forall k :: SkipBlanksBack(s, j) <= k < j ==> IsWhitespace(s[k])
    decreases j
  {
    if j > 0 && IsWhitespace(s[j - 1]) {
      SkippedBackAreBlank(s, j - 1);
    }
  }

  /** SkipBlanksBack never passes a character that is not whitespace. */
  lemma {:induction false} SkipBackStopsAt(s: string, j: nat, m: nat)
    requires m < j <= |s| && !IsWhitespace(s[m])
    ensures m < SkipBlanksBack(s, j)
    decreases j
  {
    if j - 1 > m && IsWhitespace(s[j - 1]) {
      SkipBackStopsAt(s, j - 1, m);
    }
  }

  /**
   * `trimmingCharacters(in: .whitespacesAndNewlines)`: skip whitespace from
   * the front; if that reaches the end nothing is left, otherwise skip
   * whitespace from the back and keep what lies between.
   */
  function Trim(s: string): (r: string)
    ensures |r| <= |s|
    ensures NoEdgeWhitespace(r)
  {
    var i := SkipBlanks(s, 0);
    if i == |s| then []
    else
      SkipBackStopsAt(s, |s|, i);
      var r := s[i..SkipBlanksBack(s, |s|)];
      assert r[0] == s[i] && r[|r| - 1] == s[SkipBlanksBack(s, |s|) - 1];
      r
  }

  /** The query the handler looks up: "/W" removed, then whitespace trimmed. */
  function Normalize(received: string): (q: string)
    ensures |q| <= |received|
    ensures NoEdgeWhitespace(q)
  {
    Trim(RemoveAll(received, VERBOSE_KEY))
  }

  // ---------------------------------------------------------------------
  // Trimming: an independent characterisation and its consequences

  /** Trim cuts `s` into whitespace, the result, and whitespace. */
  lemma TrimSplit(s: string) returns (front: string, back: string)
    ensures s == front + Trim(s) + back
    ensures AllWhitespace(front) && AllWhitespace(back)
  {
    var i := SkipBlanks(s, 0);
    BlankEdges(s);
    if i == |s| {
      front, back := s, [];
      assert s == front + [] + back;
    } else {
      var j := SkipBlanksBack(s, |s|);
      assert i < j by {
        SkipBackStopsAt(s, |s|, i);
      }
      front, back := s[..i], s[j..];
      assert Trim(s) == s[i..j];
      SplitThree(s, i, j);
    }
  }

  /** The blanks skipped from either end are whitespace. */
  lemma BlankEdges(s: string)
    ensures AllWhitespace(s[..SkipBlanks(s, 0)])
    ensures AllWhitespace(s[SkipBlanksBack(s, |s|)..])
  {
    var i, j := SkipBlanks(s, 0), SkipBlanksBack(s, |s|);
    SkippedAreBlank(s, 0);
    SkippedBackAreBlank(s, |s|);
    forall k | 0 <= k < i ensures IsWhitespace(s[..i][k]) {
      assert s[..i][k] == s[k];
    }
    forall k | 0 <= k < |s| - j ensures IsWhitespace(s[j..][k]) {
      assert s[j..][k] == s[j + k];
    }
  }

  /** Cutting a sequence at two positions and joining the pieces gives it back. */
  lemma SplitThree(s: string, i: nat, j: nat)
    requires i <= j <= |s|
    ensures s == s[..i] + s[i..j] + s[j..]
  {
    assert s == s[..i] + s[i..];
    assert s[i..] == s[i..j] + s[j..];
  }

  /** SkipBlanks stops exactly at the first non-whitespace position at or after `i`. */
  lemma {:induction false} SkipBlanksAt(s: string, i: nat, m: nat)
    requires i <= m <= |s|
    requires forall k :: i <= k < m ==> IsWhitespace(s[k])
    requires m == |s| || !IsWhitespace(s[m])
    ensures SkipBlanks(s, i) == m
    decreases m - i
  {
    if i < m {
      SkipBlanksAt(s, i + 1, m);
    }
  }

  /** SkipBlanksBack stops exactly after the last non-whitespace position before `j`. */
  lemma {:induction false} SkipBlanksBackAt(s: string, j: nat, m: nat)
    requires m <= j <= |s|
    requires forall k :: m <= k < j ==> IsWhitespace(s[k])
    requires m == 0 || !IsWhitespace(s[m - 1])
    ensures SkipBlanksBack(s, j) == m
    decreases j - m
  {
    if m < j {
      SkipBlanksBackAt(s, j - 1, m);
    }
  }

  /**
   * Conversely, whitespace, then a piece without edge whitespace, then
   * whitespace, trims to exactly that piece.
   */
  lemma {:induction false} TrimUnique(front: string, core: string, back: string)
    requires AllWhitespace(front) && AllWhitespace(back)
    requires NoEdgeWhitespace(core)
    ensures Trim(front + core + back) == core
  {
    var s := front + core + back;
    var i, j := |front|, |front| + |core|;
    assert forall k :: 0 <= k < i ==> s[k] == front[k];
    assert forall k :: j <= k < |s| ==> s[k] == back[k - j];
    if core == [] {
      SkipBlanksAt(s, 0, |s|);
    } else {
      assert s[i] == core[0] && s[j - 1] == core[|core| - 1];
      SkipBlanksAt(s, 0, i);
      SkipBlanksBackAt(s, |s|, j);
      assert s[i..j] == core;
    }
  }

  /** A string of nothing but whitespace trims to the empty string. */
  lemma TrimBlank(s: string)
    requires AllWhitespace(s)
    ensures Trim(s) == []
  {
    assert s == s + [] + [];
    TrimUnique(s, [], []);
  }

  /** A string with no whitespace at either end trims to itself. */
  lemma TrimNoEdge(s: string)
    requires NoEdgeWhitespace(s)
    ensures Trim(s) == s
  {
    assert s == [] + s + [];
    TrimUnique([], s, []);
  }

  lemma {:induction false} TrimIdempotent(s: string)
    ensures Trim(Trim(s)) == Trim(s)
  {
    TrimNoEdge(Trim(s));
  }

  /** Trailing whitespace (the CR LF terminator in particular) never reaches the trimmed query. */
  lemma {:induction false} TrimAppendWhitespace(s: string, w: string)
    requires AllWhitespace(w)
    ensures Trim(s + w) == Trim(s)
  {
    var front, back := TrimSplit(s);
    var r := Trim(s);
    assert s + w == front + r + (back + w);
    assert AllWhitespace(back + w) by {
      forall k | 0 <= k < |back + w| ensures IsWhitespace((back + w)[k]) {
        if k < |back| { assert (back + w)[k] == back[k]; } else { assert (back + w)[k] == w[k - |back|]; }
      }
    }
    TrimUnique(front, r, back + w);
  }

  // ---------------------------------------------------------------------
  // Removing the verbose token

  /**
   * Removal distributes over a concatenation unless the seam itself spells
   * "/W" (a '/' ending `s` next to a 'W' starting `t`).
   */
  lemma {:induction false} RemoveAllConcat(s: string, t: string)
    requires !(s != [] && t != [] && s[|s| - 1] == '/' && t[0] == 'W')
    ensures RemoveAll(s + t, VERBOSE_KEY) == RemoveAll(s, VERBOSE_KEY) + RemoveAll(t, VERBOSE_KEY)
    decreases |s|
  {
    var k := VERBOSE_KEY;
    if s == [] {
      assert s + t == t;
    } else if t == [] {
      assert s + t == s;
    } else if |s| == 1 {
      assert (s + t)[..2] == [s[0], t[0]];
      assert (s + t)[1..] == t;
    } else {
      assert (s + t)[..2] == s[..2];
      if s[..2] == k {
        assert (s + t)[2..] == s[2..] + t;
        RemoveAllConcat(s[2..], t);
      } else {
        assert (s + t)[1..] == s[1..] + t;
        RemoveAllConcat(s[1..], t);
      }
    }
  }

  /** An inserted "/W" is deleted wherever it stands, and nothing else changes. */
  lemma {:induction false} RemoveAllInsertedKey(a: string, b: string)
    ensures RemoveAll(a + VERBOSE_KEY + b, VERBOSE_KEY) == RemoveAll(a, VERBOSE_KEY) + RemoveAll(b, VERBOSE_KEY)
  {
    var kb := VERBOSE_KEY + b;
    assert a + VERBOSE_KEY + b == a + kb;
    RemoveAllConcat(a, kb);
    assert kb[..2] == VERBOSE_KEY && kb[2..] == b;
  }

  /**
   * One scan, not a fixpoint: deleting "/W" from "//WW" joins the outer
   * characters into a fresh "/W", which survives.
   */
  lemma RemoveAllSinglePass()
    ensures RemoveAll("//WW", VERBOSE_KEY) == VERBOSE_KEY
    ensures Occurs(RemoveAll("//WW", VERBOSE_KEY), VERBOSE_KEY)
  {
    var s := "//WW";
    assert s[..2][1] != VERBOSE_KEY[1];
    assert s[1..][..2] == VERBOSE_KEY;
    assert s[1..][2..] == "W";
  }

  // ---------------------------------------------------------------------
  // The normalised query

  /** "/W" at the front or at the back of the buffer does not change the query. */
  lemma {:induction false} NormalizeIgnoresKeyAtEnds(s: string)
    ensures Normalize(VERBOSE_KEY + s) == Normalize(s)
    ensures Normalize(s + VERBOSE_KEY) == Normalize(s)
  {
    RemoveAllInsertedKey([], s);
    assert [] + VERBOSE_KEY + s == VERBOSE_KEY + s;
    RemoveAllInsertedKey(s, []);
    assert s + VERBOSE_KEY + [] == s + VERBOSE_KEY;
    assert RemoveAll([], VERBOSE_KEY) == [];
    assert [] + RemoveAll(s, VERBOSE_KEY) == RemoveAll(s, VERBOSE_KEY);
    assert RemoveAll(s, VERBOSE_KEY) + [] == RemoveAll(s, VERBOSE_KEY);
  }

  /** "/W" inserted between `a` and `b` is inert, unless that split itself spells "/W". */
  lemma {:induction false} NormalizeIgnoresInsertedKey(a: string, b: string)
    requires !(a != [] && b != [] && a[|a| - 1] == '/' && b[0] == 'W')
    ensures Normalize(a + VERBOSE_KEY + b) == Normalize(a + b)
  {
    RemoveAllInsertedKey(a, b);
    RemoveAllConcat(a, b);
  }

  /**
   * A plain user name followed by CR LF normalises to the user name itself.
   */
  lemma {:induction false} NormalizeQueryLine(u: string)
    requires NoEdgeWhitespace(u) && !Occurs(u, VERBOSE_KEY)
    ensures Normalize(u + "\r\n") == u
  {
    var crlf := "\r\n";
    assert AllWhitespace(crlf);
    RemoveAllDeletes(u, VERBOSE_KEY);
    BlankHasNoKey(crlf);
    RemoveAllConcat(u, crlf);
    assert RemoveAll(u + crlf, VERBOSE_KEY) == u + crlf;
    TrimAppendWhitespace(u, crlf);
    TrimNoEdge(u);
  }

  /** A line of nothing but whitespace normalises to the empty query. */
  lemma {:induction false} NormalizeBlankLine(w: string)
    requires AllWhitespace(w)
    ensures Normalize(w) == []
  {
    BlankHasNoKey(w);
    TrimBlank(w);
  }

  lemma {:induction false} BlankHasNoKey(w: string)
    requires AllWhitespace(w)
    ensures RemoveAll(w, VERBOSE_KEY) == w
    decreases |w|
  {
    if |w| >= 2 {
      assert !IsWhitespace('/');
      assert w[..2] != VERBOSE_KEY by { assert w[..2][0] == w[0]; }
      assert AllWhitespace(w[1..]) by {
        forall i | 0 <= i < |w[1..]| ensures IsWhitespace(w[1..][i]) { assert w[1..][i] == w[i + 1]; }
      }
      BlankHasNoKey(w[1..]);
      assert w == [w[0]] + w[1..];
    }
  }

  /**
   * Normalisation is not idempotent: "//WW" becomes "/W", which normalises
   * further to "".
   */
  lemma NormalizeNotIdempotent()
    ensures Normalize("//WW") == VERBOSE_KEY
    ensures Normalize(Normalize("//WW")) == []
  {
    RemoveAllSinglePass();
    var k := VERBOSE_KEY;
    assert NoEdgeWhitespace(k);
    TrimNoEdge(k);
    assert k[..2] == k && k[2..] == [];
    assert RemoveAll(k, k) == [];
    assert Trim([]) == [];
  }
}
