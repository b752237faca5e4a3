/**
  The one shape of regular expression the validation rules use,
  `^[class]{min,max}$`, and what `Regex.matches` does with it: the bounded
  repetition consumes as many code units of the class as it may, and the
  whole string must be consumed.
 */
module Pattern {
  import opened Utf16

  /** One range `lo-hi` of a bracketed character class, both ends inclusive. */
  datatype Range = Range(lo: CodeUnit, hi: CodeUnit)

  /** A bracketed character class such as `[A-Za-z\d]`, as its list of ranges. */
  type CharClass = seq<Range>

  predicate InClass(cls: CharClass, u: CodeUnit) {
    exists i :: 0 <= i < |cls| && cls[i].lo <= u <= cls[i].hi
  }

  predicate AllInClass(cls: CharClass, s: KString) {
    forall i :: 0 <= i < |s| ==> InClass(cls, s[i])
  }

  /** The regular expression `^[cls]{min,max}$`. */
  datatype Anchored = Anchored(cls: CharClass, min: nat, max: nat)

  /**
    How many leading code units of `s` the repetition `[cls]{0,max}` takes
    when it is greedy: it stops at the bound, at the end of the input or at
    the first code unit outside the class.
   */
  function Greedy(cls: CharClass, max: nat, s: KString): (n: nat)
    ensures n <= max && n <= |s|
    ensures forall i :: 0 <= i < n ==> InClass(cls, s[i])
    ensures n < max && n < |s| ==> !InClass(cls, s[n])
  {
    if max == 0 || |s| == 0 || !InClass(cls, s[0]) then 0
    else 1 + Greedy(cls, max - 1, s[1..])
  }

  /**
    `Regex.matches` for `^[cls]{min,max}$`: the greedy repetition must reach
    at least `min` and stop exactly at the end (`$`). Giving back code units
    cannot help, since every shorter prefix ends before the input does. The
    pattern accepts exactly the strings of `min` to `max` code units all in
    the class.
   */
  function Matches(p: Anchored, s: KString): (b: bool)
    ensures b <==> p.min <= |s| <= p.max && AllInClass(p.cls, s)
  {
    var n := Greedy(p.cls, p.max, s);
    p.min <= n && n == |s|
  }

  /** A class without surrogates never matches a string that holds one. */
  lemma SurrogateNeverMatches(p: Anchored, s: KString, j: nat)
    requires forall u :: IsSurrogate(u) ==> !InClass(p.cls, u)
    requires j < |s| && IsSurrogate(s[j])
    ensures !Matches(p, s)
  {
    assert !InClass(p.cls, s[j]);
  }
}
