/**
 * `get_filename`: the output file name derived from a material name.
 * Spaces become '_', the characters ',', '(' and ')' are deleted, and
 * ".txt" is appended.
 */
module FileNames {
  import opened Text

  /** The characters `get_filename` deletes, in the order it deletes them. */
  const Forbidden: string := ",()"

  /** What one input character becomes in the file name stem. */
  function StemOf(c: char): string
  {
    if c == ' ' then "_" else if c in Forbidden then "" else [c]
  }

  /**
   * Reference definition of the stem, character by character. Its contract:
   * the stem holds no space and no forbidden character, and it is shorter
   * than the name by exactly the number of forbidden characters.
   */
  function Stem(s: string): (r: string)
    ensures ' ' !in r && forall c :: c in Forbidden ==> c !in r
    ensures |r| == |s| - ForbiddenCount(s)
  {
    if s == [] then [] else StemOf(s[0]) + Stem(s[1..])
  }

  /** Number of characters of `s` that are in `Forbidden`. */
  function ForbiddenCount(s: string): (n: nat)
    ensures n <= |s|
  {
    if s == [] then 0 else (if s[0] in Forbidden then 1 else 0) + ForbiddenCount(s[1..])
  }

  /** `s` with every character of `cs` deleted. */
  function Strip(s: string, cs: string): string
  {
    if s == [] then [] else (if s[0] in cs then [] else [s[0]]) + Strip(s[1..], cs)
  }

  /** Deleting one more character with `replace(c, "")` extends the set of deleted characters. */
  lemma {:induction false} StripOneMore(s: string, cs: string, c: char)
    ensures ReplaceChar(Strip(s, cs), c, "") == Strip(s, cs + [c])
  {
    if s != [] {
      StripOneMore(s[1..], cs, c);
      var head := if s[0] in cs then [] else [s[0]];
      ReplaceConcat(head, Strip(s[1..], cs), c, "");
    }
  }

  lemma {:induction false} ReplaceConcat(a: string, b: string, c: char, t: string)
    ensures ReplaceChar(a + b, c, t) == ReplaceChar(a, c, t) + ReplaceChar(b, c, t)
  {
    if a != [] {
      ReplaceConcat(a[1..], b, c, t);
      assert a + b == [a[0]] + (a[1..] + b);
      assert (a + b)[0] == a[0] && (a + b)[1..] == a[1..] + b;
    } else {
      assert a + b == b;
    }
  }

  lemma {:induction false} StripNothing(s: string)
    ensures Strip(s, "") == s
  {
    if s != [] {
      StripNothing(s[1..]);
    }
  }

  /** The two passes of `get_filename` (replace spaces, then strip) compute `Stem`. */
  lemma {:induction false} PassesComputeStem(s: string)
    ensures Strip(ReplaceChar(s, ' ', "_"), Forbidden) == Stem(s)
  {
    if s != [] {
      PassesComputeStem(s[1..]);
      var head := if s[0] == ' ' then "_" else [s[0]];
      StripConcat(head, ReplaceChar(s[1..], ' ', "_"), Forbidden);
    }
  }

  lemma {:induction false} StripConcat(a: string, b: string, cs: string)
    ensures Strip(a + b, cs) == Strip(a, cs) + Strip(b, cs)
  {
    if a != [] {
      StripConcat(a[1..], b, cs);
      assert a + b == [a[0]] + (a[1..] + b);
      assert (a + b)[0] == a[0] && (a + b)[1..] == a[1..] + b;
    } else {
      assert a + b == b;
    }
  }

  /**
   * `get_filename(energies, material_name)`. The result depends on the name
   * only: `energies` is accepted and never read.
   */
  method GetFilename(energies: seq<real>, materialName: string) returns (fileName: string)
    ensures fileName == Stem(materialName) + ".txt"
  {
    var name := ReplaceChar(materialName, ' ', "_");
    ghost var underscored := name;
    StripNothing(underscored);
    assert Forbidden[..0] == "";
    for k := 0 to |Forbidden|
      invariant name == Strip(underscored, Forbidden[..k])
    {
      StripOneMore(underscored, Forbidden[..k], Forbidden[k]);
      assert Forbidden[..k + 1] == Forbidden[..k] + [Forbidden[k]];
      name := ReplaceChar(name, Forbidden[k], "");
    }
    assert Forbidden[..|Forbidden|] == Forbidden;
    PassesComputeStem(materialName);
    fileName := name + ".txt";
  }

  /** The stem keeps the order of the name: it is computed piece by piece. */
  lemma {:induction false} StemConcat(a: string, b: string)
    ensures Stem(a + b) == Stem(a) + Stem(b)
  {
    if a != [] {
      StemConcat(a[1..], b);
      assert a + b == [a[0]] + (a[1..] + b);
      assert (a + b)[0] == a[0] && (a + b)[1..] == a[1..] + b;
    } else {
      assert a + b == b;
    }
  }

  /** A name without spaces and forbidden characters is its own stem. */
  lemma {:induction false} StemOfCleanName(s: string)
    requires ' ' !in s && forall c :: c in Forbidden ==> c !in s
    ensures Stem(s) == s
  {
    if s != [] {
      assert s[0] in s;
      assert forall c :: c in s[1..] ==> c in s;
      StemOfCleanName(s[1..]);
    }
  }

  /** Sanitising a file name stem a second time changes nothing. */
  lemma StemIdempotent(s: string)
    ensures Stem(Stem(s)) == Stem(s)
  {
    StemOfCleanName(Stem(s));
  }

  /** Every character of the name other than ' ', '_', ',', '(' and ')' survives into the stem, and no other appears. */
  lemma {:induction false} StemKeeps(s: string, c: char)
    requires c != ' ' && c != '_' && c !in Forbidden
    ensures c in s <==> c in Stem(s)
  {
    if s != [] {
      StemKeeps(s[1..], c);
      assert c in s <==> c == s[0] || c in s[1..];
      assert Stem(s) == StemOf(s[0]) + Stem(s[1..]);
      assert c in StemOf(s[0]) <==> c == s[0];
    }
  }

  /** Each '_' of the stem is an '_' or a space of the name. */
  lemma {:induction false} StemUnderscores(s: string)
    ensures Occurrences(Stem(s), '_') == Occurrences(s, '_') + Occurrences(s, ' ')
  {
    if s != [] {
      StemUnderscores(s[1..]);
      OccurrencesConcat(StemOf(s[0]), Stem(s[1..]), '_');
    }
  }

  lemma {:induction false} OccurrencesConcat(a: string, b: string, c: char)
    ensures Occurrences(a + b, c) == Occurrences(a, c) + Occurrences(b, c)
  {
    if a != [] {
      OccurrencesConcat(a[1..], b, c);
      assert a + b == [a[0]] + (a[1..] + b);
      assert (a + b)[0] == a[0] && (a + b)[1..] == a[1..] + b;
    } else {
      assert a + b == b;
    }
  }
}
