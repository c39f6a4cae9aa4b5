/**
 * Slug normalisation. The program defines the same `slugify` three times
 * (the editor, the article library and the importer), character for
 * character: lower-case, drop every character outside `[a-z0-9\s-]`, trim,
 * turn each white-space run into one hyphen, then squeeze each hyphen run to
 * one hyphen. It is modelled once, as the composition of those five passes.
 */
module Slug {
  import opened Text

  predicate IsSlugChar(c: char) {
    IsAsciiLower(c) || IsDigit(c) || c == '-'
  }

  /** The characters `.replace(/[^a-z0-9\s-]/g, "")` lets through. */
  predicate IsKept(c: char) {
    IsSlugChar(c) || IsSpace(c)
  }

  predicate AllKept(s: string) {
    forall i :: 0 <= i < |s| ==> IsKept(s[i])
  }

  predicate AllSlugChars(s: string) {
    forall i :: 0 <= i < |s| ==> IsSlugChar(s[i])
  }

  predicate NoDoubleHyphen(s: string) {
    forall i :: 0 <= i < |s| - 1 ==> !(s[i] == '-' && s[i + 1] == '-')
  }

  /** What a slug looks like: only `a-z`, `0-9` and `-`, never two hyphens
      in a row. Leading and trailing hyphens are allowed. */
  predicate IsSlug(s: string) {
    AllSlugChars(s) && NoDoubleHyphen(s)
  }

  predicate IsHyphen(c: char) { c == '-' }

  /** `.replace(/[^a-z0-9\s-]/g, "")` */
  function KeepSlugChars(s: string): (r: string)
    ensures AllKept(r)
    ensures |s| > 0 && IsKept(s[0]) ==> |r| > 0 && r[0] == s[0]
    ensures |s| > 0 && IsKept(s[|s| - 1]) ==> |r| > 0 && r[|r| - 1] == s[|s| - 1]
    decreases |s|
  {
    if |s| == 0 then ""
    else if IsKept(s[0]) then [s[0]] + KeepSlugChars(s[1..])
    else KeepSlugChars(s[1..])
  }

  /** `.replace(/\s+/g, "-")` */
  function SpacesToHyphens(s: string): (r: string)
    ensures NoSpace(r)
    ensures AllKept(s) ==> AllSlugChars(r)
    ensures |s| > 0 && !IsSpace(s[0]) ==> |r| > 0 && r[0] == s[0]
    ensures |s| > 0 && !IsSpace(s[|s| - 1]) ==> |r| > 0 && r[|r| - 1] == s[|s| - 1]
    decreases |s|
  {
    if |s| == 0 then ""
    else if IsSpace(s[0]) then
      var k := RunLength(s, IsSpace);
      "-" + SpacesToHyphens(s[k..])
    else [s[0]] + SpacesToHyphens(s[1..])
  }

  /** `.replace(/-+/g, "-")` */
  function SqueezeHyphens(s: string): (r: string)
    ensures AllSlugChars(s) ==> AllSlugChars(r)
    ensures NoDoubleHyphen(r)
    ensures |s| > 0 ==> |r| > 0 && r[0] == s[0] && r[|r| - 1] == s[|s| - 1]
    decreases |s|
  {
    if |s| == 0 then ""
    else if s[0] == '-' then
      var k := RunLength(s, IsHyphen);
      var rest := SqueezeHyphens(s[k..]);
      assert |rest| > 0 ==> rest[0] != '-';
      "-" + rest
    else [s[0]] + SqueezeHyphens(s[1..])
  }

  /** `slugify(text)`; its result is always a slug. */
  function Slugify(text: string): (r: string)
    ensures IsSlug(r)
  {
    var kept := KeepSlugChars(Lower(text));
    TrimKeepsKept(kept);
    var hyphened := SpacesToHyphens(Trim(kept));
    SqueezeHyphens(hyphened)
  }

  lemma TrimKeepsKept(s: string)
    requires AllKept(s)
    ensures AllKept(Trim(s))
  {
    var r := Trim(s);
    TrimInfix(s);
    forall k | 0 <= k < |r| ensures IsKept(r[k]) {
      assert r[k] in s;
    }
  }

  // ---------------------------------------------------------------------
  // Every pass is the identity on a slug
  // ---------------------------------------------------------------------

  lemma {:induction false} KeepSlugCharsNoop(s: string)
    requires AllKept(s)
    ensures KeepSlugChars(s) == s
    decreases |s|
  {
    if |s| > 0 {
      KeepSlugCharsNoop(s[1..]);
      assert s == [s[0]] + s[1..];
    }
  }

  lemma {:induction false} SpacesToHyphensNoop(s: string)
    requires NoSpace(s)
    ensures SpacesToHyphens(s) == s
    decreases |s|
  {
    if |s| > 0 {
      SpacesToHyphensNoop(s[1..]);
      assert s == [s[0]] + s[1..];
    }
  }

  lemma {:induction false} SqueezeHyphensNoop(s: string)
    requires NoDoubleHyphen(s)
    ensures SqueezeHyphens(s) == s
    decreases |s|
  {
    if |s| > 0 {
      assert NoDoubleHyphen(s[1..]);
      if s[0] == '-' {
        assert RunLength(s, IsHyphen) == 1 by {
          if |s| > 1 {
            assert s[1] != '-';
            assert s[1..][0] == s[1];
          }
        }
      }
      SqueezeHyphensNoop(s[1..]);
      assert s == [s[0]] + s[1..];
    }
  }

  /** A slug is a fixed point of `Slugify`. */
  lemma SlugifyNoop(s: string)
    requires IsSlug(s)
    ensures Slugify(s) == s
  {
    var lowered := Lower(s);
    assert lowered == s by { LowerNoop(s); }
    var kept := KeepSlugChars(lowered);
    assert kept == s by { KeepSlugCharsNoop(s); }
    var trimmed := Trim(kept);
    assert trimmed == s by { NoSpaceInSlug(s); TrimNoop(s); }
    var hyphened := SpacesToHyphens(trimmed);
    assert hyphened == s by { NoSpaceInSlug(s); SpacesToHyphensNoop(s); }
    assert SqueezeHyphens(hyphened) == s by { SqueezeHyphensNoop(s); }
  }

  lemma NoSpaceInSlug(s: string)
    requires AllSlugChars(s)
    ensures NoSpace(s)
  {
  }

  /** The fixed points of `Slugify` are exactly the slugs. */
  lemma SlugifyFixpoints(s: string)
    ensures Slugify(s) == s <==> IsSlug(s)
  {
    if IsSlug(s) {
      SlugifyNoop(s);
    }
  }

  /** Slugifying twice is slugifying once. */
  lemma SlugifyIdempotent(text: string)
    ensures Slugify(Slugify(text)) == Slugify(text)
  {
    SlugifyNoop(Slugify(text));
  }

  /** Leading hyphens are not trimmed away: a text that starts with `-`
      gives a slug that starts with `-`. */
  lemma SlugifyKeepsLeadingHyphen(text: string)
    requires StartsWith(text, "-")
    ensures StartsWith(Slugify(text), "-")
  {
    var lowered := Lower(text);
    assert lowered[0] == '-';
    var kept := KeepSlugChars(lowered);
    TrimKeepsFirst(kept);
  }

  /** Trailing hyphens are not trimmed away either. */
  lemma SlugifyKeepsTrailingHyphen(text: string)
    requires EndsWith(text, "-")
    ensures EndsWith(Slugify(text), "-")
  {
    var lowered := Lower(text);
    assert text[|text| - 1] == '-';
    assert lowered[|lowered| - 1] == '-';
    var kept := KeepSlugChars(lowered);
    TrimKeepsLast(kept);
  }

  lemma {:induction false} KeepSlugCharsAppend(a: string, b: string)
    ensures KeepSlugChars(a + b) == KeepSlugChars(a) + KeepSlugChars(b)
    decreases |a|
  {
    if |a| > 0 {
      assert (a + b)[1..] == a[1..] + b;
      KeepSlugCharsAppend(a[1..], b);
    } else {
      assert a + b == b;
    }
  }

  lemma SpacesToHyphensCons(c: char, t: string)
    requires !IsSpace(c)
    ensures SpacesToHyphens([c] + t) == [c] + SpacesToHyphens(t)
  {
    assert ([c] + t)[1..] == t;
  }

  lemma SpacesToHyphensBlank(t: string)
    requires |t| > 0 && IsSpace(t[0]) && (|t| == 1 || !IsSpace(t[1]))
    ensures SpacesToHyphens(t) == "-" + SpacesToHyphens(t[1..])
  {
    assert RunLength(t[1..], IsSpace) == 0 by {
      if |t| > 1 {
        assert t[1..][0] == t[1];
      }
    }
    assert RunLength(t, IsSpace) == 1;
  }

  lemma {:induction false} SpacesToHyphensPlain(a: string, b: string)
    requires NoSpace(a)
    ensures SpacesToHyphens(a + b) == a + SpacesToHyphens(b)
    decreases |a|
  {
    if |a| > 0 {
      var t := a[1..] + b;
      assert a + b == [a[0]] + t;
      assert SpacesToHyphens([a[0]] + t) == [a[0]] + SpacesToHyphens(t) by {
        SpacesToHyphensCons(a[0], t);
      }
      assert SpacesToHyphens(t) == a[1..] + SpacesToHyphens(b) by {
        SpacesToHyphensPlain(a[1..], b);
      }
      ConsSplit(a, SpacesToHyphens(b));
    } else {
      assert a + b == b;
    }
  }

  lemma SpacesToHyphensOneBlank(b: string)
    requires |b| > 0 && !IsSpace(b[0])
    ensures SpacesToHyphens(" " + b) == "-" + SpacesToHyphens(b)
  {
    var s := " " + b;
    assert s[1..] == b;
    assert RunLength(s, IsSpace) == 1 + RunLength(b, IsSpace);
  }

  /** The worked example: punctuation disappears, the blanks between the
      words become single hyphens. (The text is a parameter so that the
      verifier does not evaluate the passes on the literal eagerly.) */
  lemma SlugifyExample(text: string)
    requires text == "Hello, World! 2024"
    ensures Slugify(text) == "hello-world-2024"
  {
    var kept := KeepSlugChars(Lower(text));
    ExampleKept(text, kept);
    var hyphened := SpacesToHyphens(Trim(kept));
    ExampleHyphened(kept, hyphened);
    assert SqueezeHyphens(hyphened) == hyphened by {
      SqueezeHyphensNoop(hyphened);
    }
  }

  lemma ExampleKept(text: string, kept: string)
    requires text == "Hello, World! 2024"
    requires kept == KeepSlugChars(Lower(text))
    ensures kept == "hello" + " " + "world" + " " + "2024"
  {
    ExampleLowered(text);
    ExamplePiecesKept("hello", " world", " 2024");
    ExampleKeep("hello", ",", " world", "!", " 2024");
    assert " world" + " 2024" == " " + "world" + " " + "2024";
  }

  lemma ExampleLowered(text: string)
    requires text == "Hello, World! 2024"
    ensures Lower(text) == "hello" + "," + " world" + "!" + " 2024"
  {
  }

  lemma ExamplePiecesKept(a: string, c: string, e: string)
    requires a == "hello" && c == " world" && e == " 2024"
    ensures AllKept(a) && AllKept(c) && AllKept(e)
  {
  }

  lemma ExampleHyphened(kept: string, hyphened: string)
    requires kept == "hello" + " " + "world" + " " + "2024"
    requires hyphened == SpacesToHyphens(Trim(kept))
    ensures hyphened == "hello-world-2024"
  {
    ExampleWordsNoSpace("hello", "world", "2024");
    WordsToHyphens("hello", "world", "2024");
    ExampleJoined("hello", "world", "2024");
  }

  lemma ExampleWordsNoSpace(a: string, b: string, c: string)
    requires a == "hello" && b == "world" && c == "2024"
    ensures NoSpace(a) && NoSpace(b) && NoSpace(c)
  {
    assert NoSpace(a) by { NoSpaceInSlug(a); }
    assert NoSpace(b) by { NoSpaceInSlug(b); }
    assert NoSpace(c) by { NoSpaceInSlug(c); }
  }

  lemma ExampleJoined(a: string, b: string, c: string)
    requires a == "hello" && b == "world" && c == "2024"
    ensures a + "-" + b + "-" + c == "hello-world-2024"
  {
  }

  /** Three blank-separated words, with no blank around them, are joined
      by hyphens. */
  lemma WordsToHyphens(a: string, b: string, c: string)
    requires |a| > 0 && |b| > 0 && |c| > 0
    requires NoSpace(a) && NoSpace(b) && NoSpace(c)
    ensures SpacesToHyphens(Trim(a + " " + b + " " + c)) == a + "-" + b + "-" + c
  {
    var s := a + " " + b + " " + c;
    assert s[0] == a[0];
    assert s[|s| - 1] == c[|c| - 1];
    TrimNoop(s);
    ExampleSpaces(a, b, c);
  }

  lemma ExampleKeep(a: string, b: string, c: string, d: string, e: string)
    requires AllKept(a) && AllKept(c) && AllKept(e)
    requires b == "," && d == "!"
    ensures KeepSlugChars(a + b + c + d + e) == a + c + e
  {
    assert KeepSlugChars(a) == a by { KeepSlugCharsNoop(a); }
    assert KeepSlugChars(c) == c by { KeepSlugCharsNoop(c); }
    assert KeepSlugChars(e) == e by { KeepSlugCharsNoop(e); }
    assert KeepSlugChars(b) == "";
    assert KeepSlugChars(d) == "";
    assert KeepSlugChars(a + b) == a by { KeepSlugCharsAppend(a, b); }
    assert KeepSlugChars(a + b + c) == a + c by { KeepSlugCharsAppend(a + b, c); }
    assert KeepSlugChars(a + b + c + d) == a + c by { KeepSlugCharsAppend(a + b + c, d); }
    assert KeepSlugChars(a + b + c + d + e) == a + c + e by { KeepSlugCharsAppend(a + b + c + d, e); }
  }

  lemma ExampleSpaces(a: string, b: string, c: string)
    requires |b| > 0 && |c| > 0 && NoSpace(a) && NoSpace(b) && NoSpace(c)
    ensures SpacesToHyphens(a + " " + b + " " + c) == a + "-" + b + "-" + c
  {
    Reassociate(a, " ", b, " ", c);
    Reassociate(a, "-", b, "-", c);
    ExampleSpacesNested(a, b, c);
  }

  lemma Reassociate(a: string, p: string, b: string, q: string, c: string)
    ensures a + p + b + q + c == a + (p + (b + (q + c)))
  {
  }

  lemma ExampleSpacesNested(a: string, b: string, c: string)
    requires |b| > 0 && |c| > 0 && NoSpace(a) && NoSpace(b) && NoSpace(c)
    ensures SpacesToHyphens(a + (" " + (b + (" " + c)))) == a + ("-" + (b + ("-" + c)))
  {
    ExampleSpacesInner(b, c);
    SpacesToHyphensPlain(a, " " + (b + (" " + c)));
  }

  lemma ExampleSpacesInner(b: string, c: string)
    requires |b| > 0 && |c| > 0 && NoSpace(b) && NoSpace(c)
    ensures SpacesToHyphens(" " + (b + (" " + c))) == "-" + (b + ("-" + c))
  {
    ExampleSpacesLast(b, c);
    assert (b + (" " + c))[0] == b[0];
    SpacesToHyphensOneBlank(b + (" " + c));
  }

  lemma ExampleSpacesLast(b: string, c: string)
    requires |b| > 0 && |c| > 0 && NoSpace(b) && NoSpace(c)
    ensures SpacesToHyphens(b + (" " + c)) == b + ("-" + c)
  {
    SpacesToHyphensOneBlank(c);
    SpacesToHyphensNoop(c);
    SpacesToHyphensPlain(b, " " + c);
  }

  /** Leading and trailing hyphens survive: `"-a"` stays `"-a"`. */
  lemma SlugifyKeepsEdgeHyphens()
    ensures Slugify("-a") == "-a"
    ensures Slugify("a-") == "a-"
  {
    assert IsSlug("-a") by {
      assert IsSlugChar('-') && IsSlugChar('a');
    }
    assert IsSlug("a-") by {
      assert IsSlugChar('-') && IsSlugChar('a');
    }
    SlugifyNoop("-a");
    SlugifyNoop("a-");
  }
}
