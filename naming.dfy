/**
 * The hunt-name normaliser: a free-text hunt name becomes a slug by
 * lower-casing it, turning every space into '-', and then deleting every
 * character outside [a-zA-Z0-9-]. The hunt's role is named "hunt-" + slug.
 */
module Naming {

  /** ASCII lower-casing of one character; every other character is kept. */
  function LowerChar(c: char): char {
    if 'A' <= c <= 'Z' then (c as int - 'A' as int + 'a' as int) as char else c
  }

  /** The characters the filter keeps: [a-zA-Z0-9-]. */
  predicate Allowed(c: char) {
    ('a' <= c <= 'z') || ('A' <= c <= 'Z') || ('0' <= c <= '9') || c == '-'
  }

  /** The characters a slug may hold: [a-z0-9-]. */
  predicate SlugChar(c: char) {
    ('a' <= c <= 'z') || ('0' <= c <= '9') || c == '-'
  }

  predicate IsSlug(s: string) {
    forall i :: 0 <= i < |s| ==> SlugChar(s[i])
  }

  /** Lower-cases every character of s. */
  function Lower(s: string): (r: string)
    ensures |r| == |s|
  {
    if s == [] then [] else [LowerChar(s[0])] + Lower(s[1..])
  }

  /** Replaces every space of s by '-'. */
  function ReplaceSpaces(s: string): (r: string)
    ensures |r| == |s|
  {
    if s == [] then [] else [if s[0] == ' ' then '-' else s[0]] + ReplaceSpaces(s[1..])
  }

  /** Deletes every character of s that is not Allowed. */
  function StripDisallowed(s: string): (r: string)
    ensures |r| <= |s|
    ensures forall i :: 0 <= i < |r| ==> Allowed(r[i])
  {
    if s == [] then []
    else (if Allowed(s[0]) then [s[0]] else []) + StripDisallowed(s[1..])
  }

  /** Exactly the allowed characters of s survive the strip: none is dropped and none is added. */
  lemma {:induction false} StripDisallowedMembers(s: string)
    ensures forall c :: c in StripDisallowed(s) <==> c in s && Allowed(c)
  {
    if s != [] {
      StripDisallowedMembers(s[1..]);
      assert s == [s[0]] + s[1..];
    }
  }

  /** The slug of a hunt name: lower-case, then spaces to '-', then strip the disallowed characters. */
  function Normalise(name: string): string {
    StripDisallowed(ReplaceSpaces(Lower(name)))
  }

  /** The name of the role that guards the hunt whose slug is given. */
  function RoleName(slug: string): (r: string)
    ensures |r| == |slug| + 5 && r[..5] == "hunt-" && r[5..] == slug
  {
    "hunt-" + slug
  }

  /** What one input character contributes to the slug. */
  function NormaliseChar(c: char): (r: string)
    ensures |r| <= 1
  {
    var d := if LowerChar(c) == ' ' then '-' else LowerChar(c);
    if Allowed(d) then [d] else []
  }

  /** The normaliser works character by character. */
  lemma NormaliseCons(c: char, s: string)
    ensures Normalise([c] + s) == NormaliseChar(c) + Normalise(s)
  {
    assert ([c] + s)[1..] == s;
    var l := Lower([c] + s);
    assert l == [LowerChar(c)] + Lower(s);
    assert l[1..] == Lower(s);
    var p := ReplaceSpaces(l);
    assert p[1..] == ReplaceSpaces(Lower(s));
  }

  /** A character that survives normalisation is a slug character. */
  lemma NormaliseCharIsSlug(c: char)
    ensures IsSlug(NormaliseChar(c))
  {
  }

  /** Every character of a normalised name is in [a-z0-9-]. */
  lemma {:induction false} NormaliseIsSlug(name: string)
    ensures IsSlug(Normalise(name))
  {
    if name != [] {
      assert name == [name[0]] + name[1..];
      NormaliseCons(name[0], name[1..]);
      NormaliseIsSlug(name[1..]);
      NormaliseCharIsSlug(name[0]);
    }
  }

  /** A slug is left as it is by the normaliser. */
  lemma {:induction false} NormaliseFixesSlug(s: string)
    requires IsSlug(s)
    ensures Normalise(s) == s
  {
    if s != [] {
      assert s == [s[0]] + s[1..];
      NormaliseCons(s[0], s[1..]);
      NormaliseFixesSlug(s[1..]);
    }
  }

  /** Normalising twice is normalising once. */
  lemma NormaliseIdempotent(name: string)
    ensures Normalise(Normalise(name)) == Normalise(name)
  {
    NormaliseIsSlug(name);
    NormaliseFixesSlug(Normalise(name));
  }

  /** The slug of a concatenation is the concatenation of the slugs. */
  lemma {:induction false} NormaliseAppend(a: string, b: string)
    ensures Normalise(a + b) == Normalise(a) + Normalise(b)
  {
    if a == [] {
      assert a + b == b;
    } else {
      assert a + b == [a[0]] + (a[1..] + b);
      assert a == [a[0]] + a[1..];
      NormaliseCons(a[0], a[1..] + b);
      NormaliseCons(a[0], a[1..]);
      NormaliseAppend(a[1..], b);
    }
  }

  /** A space is never dropped: it becomes exactly one '-' in place. */
  lemma SpaceBecomesHyphen(a: string, b: string)
    ensures Normalise(a + " " + b) == Normalise(a) + "-" + Normalise(b)
  {
    NormaliseAppend(a + " ", b);
    NormaliseAppend(a, " ");
    NormaliseCons(' ', []);
    assert [' '] + [] == " ";
  }

  /** A one-character name normalises to what that character contributes. */
  lemma NormaliseSingle(c: char)
    ensures Normalise([c]) == NormaliseChar(c)
  {
    NormaliseCons(c, []);
    assert [c] + [] == [c];
  }

  lemma {:induction false} NormaliseWord(s: string, t: string)
    requires |s| == |t|
    requires forall i :: 0 <= i < |s| ==> NormaliseChar(s[i]) == [t[i]]
    ensures Normalise(s) == t
  {
    if s != [] {
      assert s == [s[0]] + s[1..];
      assert t == [t[0]] + t[1..];
      NormaliseCons(s[0], s[1..]);
      NormaliseWord(s[1..], t[1..]);
    }
  }

  /**
   * The worked example: "Mystery Hunt 2024!" becomes "mystery-hunt-2024".
   * The name is a parameter so that the solver does not unfold the
   * normaliser on a literal.
   */
  lemma MysteryHuntExample(name: string)
    requires name == "Mystery Hunt 2024!"
    ensures Normalise(name) == "mystery-hunt-2024"
  {
    var words, bang := name[..17], name[17..];
    assert name == words + bang;
    NormaliseWord(words, "mystery-hunt-2024");
    NormaliseSingle('!');
    NormaliseAppend(words, bang);
  }
}
