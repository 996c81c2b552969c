/** The C string operations the engine leans on. A string holds one character per byte and no NUL. */
module CStrings {
  /** `snprintf(dst, cap, "%s", s)`: what fits in `cap` bytes with the terminator. */
  function CopyCap(s: string, cap: nat): (r: string)
    requires cap > 0
    ensures r <= s && |r| == if |s| < cap then |s| else cap - 1
  {
    if |s| < cap then s else s[..cap - 1]
  }

  function LowerChar(c: char): char { if 'A' <= c <= 'Z' then c + 32 as char else c }

  function Lower(s: string): (r: string)
    ensures |r| == |s|
  {
    seq(|s|, i requires 0 <= i < |s| => LowerChar(s[i]))
  }

  /** `strcasecmp(a, b) == 0`. */
  predicate EqNoCase(a: string, b: string) { Lower(a) == Lower(b) }

  /** `strncasecmp(s, p, strlen(p)) == 0`. */
  predicate StartsNoCase(s: string, p: string) { |p| <= |s| && Lower(s[..|p|]) == Lower(p) }

  /** The same character, or the two cases of one letter. */
  predicate SameLetter(x: char, y: char) {
    x == y || ('A' <= x <= 'Z' && y as int == x as int + 32) || ('A' <= y <= 'Z' && x as int == y as int + 32)
  }

  /** Texts are equal regardless of case exactly when they are letter by letter. */
  lemma EqNoCaseExactlyWhen(a: string, b: string)
    ensures EqNoCase(a, b) <==> |a| == |b| && forall i :: 0 <= i < |a| ==> SameLetter(a[i], b[i])
  {
    if |a| == |b| {
      forall i | 0 <= i < |a| ensures Lower(a)[i] == Lower(b)[i] <==> SameLetter(a[i], b[i]) {}
      if forall i :: 0 <= i < |a| ==> SameLetter(a[i], b[i]) { assert Lower(a) == Lower(b); }
    } else {
      assert |Lower(a)| != |Lower(b)|;
    }
  }
}
