/** The three Python string operations the handlers rely on. */
module Text {

  /**
   * `s.split(".")[0]`: the part of `s` before its first '.', or the whole of
   * `s` when it holds no '.'.
   */
  function CutAtDot(s: string): (r: string)
    ensures r <= s
    ensures '.' !in r
    ensures |r| < |s| ==> s[|r|] == '.'
  {
    if s == [] || s[0] == '.' then [] else [s[0]] + CutAtDot(s[1..])
  }

  /** The three properties in CutAtDot's contract determine its result. */
  lemma CutAtDotUnique(s: string, p: string)
    requires p <= s && '.' !in p
    requires |p| < |s| ==> s[|p|] == '.'
    ensures CutAtDot(s) == p
  {
  }

  /** Appending a '.'-introduced suffix to a dot-free string does not change the cut. */
  lemma CutAtDotIgnoresSuffix(x: string, ext: string)
    requires '.' !in x
    ensures CutAtDot(x + "." + ext) == x
    ensures CutAtDot(x) == x
  {
    var s := x + "." + ext;
    assert x <= s && s[|x|] == '.';
    CutAtDotUnique(s, x);
    CutAtDotUnique(x, x);
  }

  /**
   * `s.lstrip(chars)`: removes the longest leading run of characters that
   * occur anywhere in `chars` (a set of characters, not a prefix).
   * LStripSpec states what it returns.
   */
  function LStrip(s: string, chars: string): (r: string)
    ensures |r| <= |s|
  {
    if s != [] && s[0] in chars then LStrip(s[1..], chars) else s
  }

  /**
   * `lstrip` returns a suffix of its input; everything it removed is in
   * `chars`, and what it kept does not start with a character of `chars`.
   */
  lemma {:induction false} LStripSpec(s: string, chars: string)
    ensures var r := LStrip(s, chars);
      && |r| <= |s| && r == s[|s| - |r|..]
      && (r == [] || r[0] !in chars)
      && forall i :: 0 <= i < |s| - |r| ==> s[i] in chars
  {
    if s != [] && s[0] in chars {
      LStripSpec(s[1..], chars);
      var r := LStrip(s, chars);
      assert r == LStrip(s[1..], chars);
      assert s[1..][|s| - 1 - |r|..] == s[|s| - |r|..];
      forall i | 0 <= i < |s| - |r| ensures s[i] in chars {
        if i > 0 {
          assert s[i] == s[1..][i - 1];
        }
      }
    }
  }

  /** A leading part made only of stripped characters is removed whatever follows it. */
  lemma {:induction false} LStripSkipsRun(p: string, t: string, chars: string)
    requires forall i :: 0 <= i < |p| ==> p[i] in chars
    ensures LStrip(p + t, chars) == LStrip(t, chars)
  {
    if p != [] {
      var s := p + t;
      assert s[0] == p[0] && s[0] in chars;
      assert s[1..] == p[1..] + t;
      assert LStrip(s, chars) == LStrip(s[1..], chars);
      var q := p[1..];
      assert forall i :: 0 <= i < |q| ==> q[i] == p[i + 1];
      LStripSkipsRun(q, t, chars);
    } else {
      assert p + t == t;
    }
  }

  /**
   * After a leading run of stripped characters, `lstrip` hands back exactly the
   * rest if and only if the rest does not itself start with one of them.
   */
  lemma LStripKeepsRestIff(p: string, t: string, chars: string)
    requires forall i :: 0 <= i < |p| ==> p[i] in chars
    ensures LStrip(p + t, chars) == t <==> (t == [] || t[0] !in chars)
  {
    LStripSkipsRun(p, t, chars);
    LStripSpec(t, chars);
  }

  /** `s.removeprefix(p)`: `s` without `p` in front when it starts with `p`, else `s`. */
  function RemovePrefix(s: string, p: string): (r: string)
    ensures p <= s ==> p + r == s
    ensures !(p <= s) ==> r == s
  {
    if p <= s then s[|p|..] else s
  }

  /** Removing a prefix undoes prepending it. */
  lemma RemovePrefixUndoesPrepend(p: string, t: string)
    ensures RemovePrefix(p + t, p) == t
  {
  }
}
