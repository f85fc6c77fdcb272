/**
 * The JavaScript string primitives the store finder relies on, over
 * `string == seq<char>`: `trim`, `indexOf`/`includes`, `split(sep)[0]`,
 * `replace` with a string pattern (first occurrence only) and
 * `replace(/\x00/g, "")`.
 */
module JsText {
  import opened Wrappers

  /** The ECMAScript WhiteSpace and LineTerminator code points, which `trim` removes.
      NUL is not among them. */
  predicate IsJsSpace(c: char) {
    c == '\t' || c == '\n' || c == '\U{B}' || c == '\U{C}' || c == '\r' || c == ' '
    || c == '\U{A0}' || c == '\U{1680}' || ('\U{2000}' <= c <= '\U{200A}')
    || c == '\U{2028}' || c == '\U{2029}' || c == '\U{202F}' || c == '\U{205F}'
    || c == '\U{3000}' || c == '\U{FEFF}'
  }

  /** Number of whitespace characters at the front of `s`. */
  function LeadingSpaces(s: string): (k: nat)
    ensures k <= |s|
    ensures forall i :: 0 <= i < k ==> IsJsSpace(s[i])
    ensures k < |s| ==> !IsJsSpace(s[k])
  {
    if s != [] && IsJsSpace(s[0]) then 1 + LeadingSpaces(s[1..]) else 0
  }

  /** Number of whitespace characters at the back of `s`. */
  function TrailingSpaces(s: string): (k: nat)
    ensures k <= |s|
    ensures forall i :: |s| - k <= i < |s| ==> IsJsSpace(s[i])
    ensures k < |s| ==> !IsJsSpace(s[|s| - 1 - k])
  {
    if s != [] && IsJsSpace(s[|s| - 1]) then 1 + TrailingSpaces(s[..|s| - 1]) else 0
  }

  /** `String.prototype.trim`: the longest infix of `s` that neither starts nor ends
      with whitespace, everything around it being whitespace. */
  function Trim(s: string): (r: string)
    ensures r != [] ==> !IsJsSpace(r[0]) && !IsJsSpace(r[|r| - 1])
    ensures LeadingSpaces(s) + |r| <= |s| && r == s[LeadingSpaces(s)..LeadingSpaces(s) + |r|]
    ensures forall k :: LeadingSpaces(s) + |r| <= k < |s| ==> IsJsSpace(s[k])
  {
    var a := LeadingSpaces(s);
    var t := s[a..];
    var b := TrailingSpaces(t);
    assert t[..|t| - b] == s[a..a + (|t| - b)];
    t[..|t| - b]
  }

  /** A string that neither starts nor ends with whitespace is its own trim. */
  lemma TrimKeeps(s: string)
    requires s != [] ==> !IsJsSpace(s[0]) && !IsJsSpace(s[|s| - 1])
    ensures Trim(s) == s
  {
    assert LeadingSpaces(s) == 0;
    assert TrailingSpaces(s) == 0;
  }

  /** One whitespace character in front of a string that is its own trim is trimmed away. */
  lemma TrimSkipsLeadingSpace(c: char, s: string)
    requires IsJsSpace(c) && s != [] && !IsJsSpace(s[0]) && !IsJsSpace(s[|s| - 1])
    ensures Trim([c] + s) == s
  {
    var t := [c] + s;
    assert t[1..] == s;
    assert LeadingSpaces(s) == 0;
    assert LeadingSpaces(t) == 1;
    assert TrailingSpaces(s) == 0;
  }

  /** A whitespace character, then a name that starts with a non-space, then NUL padding:
      trimming takes the whitespace off, so dropping one character and the NULs leaves the
      name without its first character. */
  lemma TrimSpaceThenDrop(c: char, name: string, pad: string)
    requires IsJsSpace(c) && name != [] && !IsJsSpace(name[0]) && '\0' !in name
    requires pad != [] && forall i :: 0 <= i < |pad| ==> pad[i] == '\0'
    ensures Trim([c] + name + pad) == name + pad
    ensures RemoveNul((name + pad)[1..]) == name[1..]
  {
    var body := name + pad;
    ConcatAssoc([c], name, pad);
    assert body[|body| - 1] == '\0';
    TrimSkipsLeadingSpace(c, body);
    assert body[1..] == name[1..] + pad;
    RemoveNulAppend(name[1..], pad);
    RemoveNulKeeps(name[1..]);
    RemoveNulAllNul(pad);
  }

  /** Trimming twice is trimming once. */
  lemma TrimIdempotent(s: string)
    ensures Trim(Trim(s)) == Trim(s)
  {
    TrimKeeps(Trim(s));
  }

  /** `pat` occurs in `s` at index `i`. */
  predicate MatchesAt(s: string, pat: string, i: nat) {
    i + |pat| <= |s| && s[i..i + |pat|] == pat
  }

  /** `String.prototype.indexOf(pat)`: the first index where `pat` occurs, if any. */
  function IndexOf(s: string, pat: string): (r: Option<nat>)
    ensures r.Some? ==> MatchesAt(s, pat, r.value)
    ensures r.Some? ==> forall j: nat :: j < r.value ==> !MatchesAt(s, pat, j)
    ensures r.None? ==> forall j: nat :: !MatchesAt(s, pat, j)
    decreases |s|
  {
    if |s| < |pat| then None
    else if s[..|pat|] == pat then Some(0)
    else
      MatchesAtShift(s, pat);
      match IndexOf(s[1..], pat)
      case Some(i) => Some(i + 1)
      case None => None
  }

  /** An occurrence one place further into `s` is an occurrence in `s[1..]`. */
  lemma MatchesAtShift(s: string, pat: string)
    requires s != []
    ensures forall j: nat :: 0 < j ==> (MatchesAt(s, pat, j) <==> MatchesAt(s[1..], pat, j - 1))
  {
    forall j: nat | 0 < j
      ensures MatchesAt(s, pat, j) <==> MatchesAt(s[1..], pat, j - 1)
    {
      if j + |pat| <= |s| {
        var here, there := s[j..j + |pat|], s[1..][j - 1..j - 1 + |pat|];
        assert forall k :: 0 <= k < |pat| ==> here[k] == there[k];
        assert here == there;
      }
    }
  }

  /** `pat` is found where it was put. */
  lemma IncludesInside(a: string, pat: string, b: string)
    ensures IndexOf(a + pat + b, pat).Some?
  {
    assert (a + pat + b)[|a|..|a| + |pat|] == pat;
    assert MatchesAt(a + pat + b, pat, |a|);
  }

  /** When `p` does not contain the separator, and the separator's first character does not
      recur later in it, the first separator in `p + sep + rest` is right after `p`. */
  lemma IndexOfAfter(p: string, sep: string, rest: string)
    requires sep != [] && sep[0] !in sep[1..] && !Includes(p, sep)
    ensures IndexOf(p + sep + rest, sep) == Some(|p|)
  {
    var s := p + sep + rest;
    ConcatAssoc(p, sep, rest);
    assert MatchesAt(s, sep, |p|) by {
      assert s[|p|..|p| + |sep|] == sep;
    }
    forall j: nat | j < |p|
      ensures !MatchesAt(s, sep, j)
    {
      if j + |sep| <= |p| {
        assert !MatchesAt(p, sep, j);
        MatchesAtExtend(p, sep + rest, sep, j);
      } else if j + |sep| <= |s| {
        var k := |p| - j;
        var w := s[j..j + |sep|];
        assert w[k] == sep[0];
        assert sep[1..][k - 1] == sep[k];
      }
    }
    IndexOfIsFirst(s, sep, |p|);
  }

  /** An occurrence in `s` is still the first one once more text follows. */
  lemma IndexOfExtend(s: string, t: string, pat: string)
    requires IndexOf(s, pat).Some?
    ensures IndexOf(s + t, pat) == IndexOf(s, pat)
  {
    var i := IndexOf(s, pat).value;
    forall j: nat | j <= i
      ensures MatchesAt(s + t, pat, j) == MatchesAt(s, pat, j)
    {
      MatchesAtExtend(s, t, pat, j);
    }
    IndexOfIsFirst(s + t, pat, i);
  }

  /** A match that ends inside `s` is unaffected by what follows `s`. */
  lemma MatchesAtExtend(s: string, t: string, pat: string, j: nat)
    requires j + |pat| <= |s|
    ensures MatchesAt(s + t, pat, j) == MatchesAt(s, pat, j)
  {
    var here, there := (s + t)[j..j + |pat|], s[j..j + |pat|];
    assert forall k :: 0 <= k < |pat| ==> here[k] == there[k];
    assert here == there;
  }

  /** A match with none before it is what `IndexOf` finds. */
  lemma IndexOfIsFirst(s: string, pat: string, i: nat)
    requires MatchesAt(s, pat, i)
    requires forall j: nat :: j < i ==> !MatchesAt(s, pat, j)
    ensures IndexOf(s, pat) == Some(i)
  {
  }

  /** `String.prototype.includes(pat)`. */
  predicate Includes(s: string, pat: string) {
    IndexOf(s, pat).Some?
  }

  /** `includes` holds exactly when the pattern occurs somewhere. */
  lemma IncludesMeans(s: string, pat: string)
    ensures Includes(s, pat) <==> exists i: nat :: MatchesAt(s, pat, i)
  {
    if Includes(s, pat) {
      assert MatchesAt(s, pat, IndexOf(s, pat).value);
    }
  }

  /** `s.split(sep)[0]` for a non-empty separator: the text before the first `sep`,
      or all of `s` when `sep` does not occur. */
  function SplitHead(s: string, sep: string): (r: string)
    requires sep != []
    ensures r <= s
    ensures r == s <==> !Includes(s, sep)
    ensures r != s ==> MatchesAt(s, sep, |r|) && forall j: nat :: j < |r| ==> !MatchesAt(s, sep, j)
  {
    match IndexOf(s, sep)
    case Some(i) => s[..i]
    case None => s
  }

  /** `s.replace(pat, rep)` with a string pattern: only the FIRST occurrence is replaced,
      wherever it is. */
  function ReplaceFirst(s: string, pat: string, rep: string): (r: string)
    ensures !Includes(s, pat) ==> r == s
    ensures Includes(s, pat) ==> |r| == |s| - |pat| + |rep|
    ensures forall i: nat | MatchesAt(s, pat, i) && (forall j: nat :: j < i ==> !MatchesAt(s, pat, j)) ::
              r == s[..i] + rep + s[i + |pat|..]
  {
    match IndexOf(s, pat)
    case Some(i) => s[..i] + rep + s[i + |pat|..]
    case None => s
  }

  /** Once `s` contains the pattern, text appended after `s` is left untouched. */
  lemma ReplaceFirstExtend(s: string, t: string, pat: string, rep: string)
    requires Includes(s, pat)
    ensures ReplaceFirst(s + t, pat, rep) == ReplaceFirst(s, pat, rep) + t
  {
    var i := IndexOf(s, pat).value;
    IndexOfExtend(s, t, pat);
    var st := s + t;
    assert st[..i] == s[..i];
    assert st[i + |pat|..] == s[i + |pat|..] + t;
    ConcatAssoc(s[..i] + rep, s[i + |pat|..], t);
  }

  lemma ConcatAssoc(x: string, y: string, z: string)
    ensures x + (y + z) == (x + y) + z
  {
  }

  /** `s.replace(/\x00/g, "")`: `s` with every NUL character deleted. */
  function RemoveNul(s: string): (r: string)
    ensures |r| <= |s|
    ensures forall c :: c in r <==> c in s && c != '\0'
  {
    if s == [] then []
    else if s[0] == '\0' then RemoveNul(s[1..])
    else [s[0]] + RemoveNul(s[1..])
  }

  /** Deleting NULs distributes over concatenation. */
  lemma {:induction false} RemoveNulAppend(a: string, b: string)
    ensures RemoveNul(a + b) == RemoveNul(a) + RemoveNul(b)
  {
    if a != [] {
      assert (a + b)[1..] == a[1..] + b;
      RemoveNulAppend(a[1..], b);
    } else {
      assert a + b == b;
    }
  }

  /** A string without NUL is left as it is. */
  lemma {:induction false} RemoveNulKeeps(s: string)
    requires '\0' !in s
    ensures RemoveNul(s) == s
  {
    if s != [] {
      RemoveNulKeeps(s[1..]);
    }
  }

  /** A string of NULs only vanishes. */
  lemma {:induction false} RemoveNulAllNul(s: string)
    requires forall i :: 0 <= i < |s| ==> s[i] == '\0'
    ensures RemoveNul(s) == []
  {
    if s != [] {
      RemoveNulAllNul(s[1..]);
    }
  }
}
