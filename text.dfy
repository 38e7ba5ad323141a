/** The string normalisation of the auth layer: `s.toLowerCase().trim()`.
    Lower-casing covers the ASCII letters; trimming removes exactly the
    characters ECMAScript counts as WhiteSpace or LineTerminator. */
module Text {

  predicate IsUpper(c: char) {
    'A' <= c <= 'Z'
  }

  function LowerChar(c: char): (l: char)
    ensures !IsUpper(l)
    ensures IsUpper(c) ==> l as int == c as int + 32
    ensures !IsUpper(c) ==> l == c
  {
    if IsUpper(c) then (c as int + 32) as char else c
  }

  /** String.prototype.toLowerCase, restricted to ASCII letters. */
  function ToLower(s: string): (r: string)
    ensures |r| == |s|
    ensures forall i :: 0 <= i < |s| ==> r[i] == LowerChar(s[i])
  {
    if s == [] then [] else [LowerChar(s[0])] + ToLower(s[1..])
  }

  predicate NoUpper(s: string) {
    forall i :: 0 <= i < |s| ==> !IsUpper(s[i])
  }

  /** The characters String.prototype.trim removes: WhiteSpace (TAB, VT, FF,
      SP, NBSP, ZWNBSP and the Zs category) and LineTerminator (LF, CR, LS, PS). */
  predicate IsSpace(c: char) {
    || c == '\t' || c == '\n' || c == '\U{B}' || c == '\U{C}' || c == '\r'
    || c == ' ' || c == '\U{A0}' || c == '\U{1680}'
    || ('\U{2000}' <= c <= '\U{200A}')
    || c == '\U{2028}' || c == '\U{2029}' || c == '\U{202F}' || c == '\U{205F}'
    || c == '\U{3000}' || c == '\U{FEFF}'
  }

  /** Drops the leading white space (see TrimStartIsSuffix). */
  function TrimStart(s: string): (r: string)
    ensures |r| <= |s|
    ensures r == [] || !IsSpace(r[0])
  {
    if s != [] && IsSpace(s[0]) then TrimStart(s[1..]) else s
  }

  /** What TrimStart leaves is a suffix of its input, and everything it
      dropped was white space. */
  lemma {:induction false} TrimStartIsSuffix(s: string)
    ensures TrimStart(s) == s[|s| - |TrimStart(s)|..]
    ensures AllSpace(s[..|s| - |TrimStart(s)|])
  {
    if s != [] && IsSpace(s[0]) {
      TrimStartIsSuffix(s[1..]);
      var k := |s| - |TrimStart(s)|;
      assert s[1..][..k - 1] == s[1..k];
      assert forall i :: 1 <= i < k ==> s[i] == s[1..k][i - 1];
    }
  }

  /** Drops the trailing white space (see TrimEndIsPrefix). */
  function TrimEnd(s: string): (r: string)
    ensures |r| <= |s|
    ensures r == [] || !IsSpace(r[|r| - 1])
  {
    if s != [] && IsSpace(s[|s| - 1]) then TrimEnd(s[..|s| - 1]) else s
  }

  /** What TrimEnd leaves is a prefix of its input, and everything it
      dropped was white space. */
  lemma {:induction false} TrimEndIsPrefix(s: string)
    ensures TrimEnd(s) == s[..|TrimEnd(s)|]
    ensures AllSpace(s[|TrimEnd(s)|..])
  {
    if s != [] && IsSpace(s[|s| - 1]) {
      var init := s[..|s| - 1];
      TrimEndIsPrefix(init);
      var n := |TrimEnd(s)|;
      assert init[..n] == s[..n];
      assert forall i :: n <= i < |s| - 1 ==> s[i] == init[n..][i - n];
    }
  }

  /** String.prototype.trim. */
  function Trim(s: string): (r: string)
    ensures r == [] || (!IsSpace(r[0]) && !IsSpace(r[|r| - 1]))
  {
    TrimEndIsPrefix(TrimStart(s));
    TrimEnd(TrimStart(s))
  }

  predicate AllSpace(s: string) {
    forall i :: 0 <= i < |s| ==> IsSpace(s[i])
  }

  /** `r` is the slice of `s` starting at `k`, with only white space
      before and after it. */
  ghost predicate TrimmedAt(s: string, r: string, k: int) {
    0 <= k && k + |r| <= |s| && r == s[k..k + |r|]
    && AllSpace(s[..k]) && AllSpace(s[k + |r|..])
  }

  /** Trim keeps one contiguous slice of its input and removes only white
      space on either side of it. */
  lemma TrimIsSlice(s: string)
    ensures exists k :: TrimmedAt(s, Trim(s), k)
  {
    var t := TrimStart(s);
    TrimStartIsSuffix(s);
    var k := |s| - |t|;
    var r := TrimEnd(t);
    TrimEndIsPrefix(t);
    assert s[k..k + |r|] == r;
    var tail := s[k + |r|..];
    forall i | 0 <= i < |tail| ensures IsSpace(tail[i]) {
      assert tail[i] == t[|r| + i];
    }
    assert Trim(s) == r;
    assert TrimmedAt(s, r, k);
  }

  lemma TrimOfNoUpper(s: string)
    requires NoUpper(s)
    ensures NoUpper(Trim(s))
  {
    var t := TrimStart(s);
    TrimStartIsSuffix(s);
    TrimEndIsPrefix(t);
    assert NoUpper(t) by {
      forall i | 0 <= i < |t| ensures !IsUpper(t[i]) {
        assert t[i] == s[|s| - |t| + i];
      }
    }
  }

  /** An email in the form register stores: no upper-case ASCII letter,
      no white space at either end. */
  predicate IsNormalEmail(s: string) {
    NoUpper(s) && (s == [] || (!IsSpace(s[0]) && !IsSpace(s[|s| - 1])))
  }

  /** `email.toLowerCase().trim()`, as register and login apply it. */
  function NormalizeEmail(s: string): (r: string)
    ensures IsNormalEmail(r)
  {
    TrimOfNoUpper(ToLower(s));
    Trim(ToLower(s))
  }

  /** Lower-casing a string without upper-case letters changes nothing. */
  lemma ToLowerOfLower(s: string)
    requires NoUpper(s)
    ensures ToLower(s) == s
  {
    assert forall i :: 0 <= i < |s| ==> ToLower(s)[i] == s[i];
  }

  /** The strings normalisation leaves alone are exactly the normal ones. */
  lemma NormalizeEmailFixesNormal(s: string)
    ensures NormalizeEmail(s) == s <==> IsNormalEmail(s)
  {
    if IsNormalEmail(s) {
      ToLowerOfLower(s);
      assert TrimStart(s) == s;
    }
  }

  /** Normalising an email twice is the same as normalising it once. */
  lemma NormalizeEmailIdempotent(s: string)
    ensures NormalizeEmail(NormalizeEmail(s)) == NormalizeEmail(s)
  {
    NormalizeEmailFixesNormal(NormalizeEmail(s));
  }

  lemma {:induction false} ToLowerAppend(a: string, b: string)
    ensures ToLower(a + b) == ToLower(a) + ToLower(b)
  {
    assert forall i :: 0 <= i < |a + b| ==> ToLower(a + b)[i] == (ToLower(a) + ToLower(b))[i];
  }

  lemma ToLowerOfSpace(s: string)
    requires AllSpace(s)
    ensures ToLower(s) == s
  {
    assert forall i :: 0 <= i < |s| ==> ToLower(s)[i] == s[i];
  }

  lemma {:induction false} TrimStartPadded(sp: string, x: string)
    requires AllSpace(sp)
    ensures TrimStart(sp + x) == TrimStart(x)
  {
    if sp != [] {
      assert (sp + x)[0] == sp[0];
      assert (sp + x)[1..] == sp[1..] + x;
      TrimStartPadded(sp[1..], x);
    } else {
      assert sp + x == x;
    }
  }

  lemma {:induction false} TrimStartAppend(x: string, y: string)
    ensures TrimStart(x + y) == if TrimStart(x) == [] then TrimStart(y) else TrimStart(x) + y
  {
    if x != [] {
      assert (x + y)[0] == x[0];
      if IsSpace(x[0]) {
        assert (x + y)[1..] == x[1..] + y;
        TrimStartAppend(x[1..], y);
      }
    } else {
      assert x + y == y;
    }
  }

  lemma {:induction false} TrimEndPadded(x: string, sp: string)
    requires AllSpace(sp)
    ensures TrimEnd(x + sp) == TrimEnd(x)
  {
    if sp != [] {
      var n := |sp| - 1;
      assert (x + sp)[|x + sp| - 1] == sp[n];
      assert (x + sp)[..|x + sp| - 1] == x + sp[..n];
      TrimEndPadded(x, sp[..n]);
    } else {
      assert x + sp == x;
    }
  }

  lemma LowerPadded(pre: string, a: string, post: string)
    requires AllSpace(pre) && AllSpace(post)
    ensures ToLower(pre + a + post) == pre + ToLower(a) + post
  {
    ToLowerAppend(pre + a, post);
    ToLowerAppend(pre, a);
    ToLowerOfSpace(pre);
    ToLowerOfSpace(post);
  }

  lemma TrimPadded(pre: string, l: string, post: string)
    requires AllSpace(pre) && AllSpace(post)
    ensures Trim(pre + l + post) == Trim(l)
  {
    assert pre + l + post == pre + (l + post);
    TrimStartPadded(pre, l + post);
    TrimStartAppend(l, post);
    if TrimStart(l) == [] {
      TrimStartIsSuffix(post);
      assert TrimStart(post) == [];
    } else {
      TrimEndPadded(TrimStart(l), post);
    }
  }

  /** Emails that differ only in the case of ASCII letters and in
      surrounding white space normalise to the same string: registering
      " Ann@X.com " collides with a stored "ann@x.com". */
  lemma NormalizeEmailIgnoresCaseAndPadding(a: string, b: string, pre: string, post: string)
    requires ToLower(a) == ToLower(b)
    requires AllSpace(pre) && AllSpace(post)
    ensures NormalizeEmail(pre + a + post) == NormalizeEmail(b)
  {
    LowerPadded(pre, a, post);
    TrimPadded(pre, ToLower(b), post);
  }
}
