/**
 * The badge-text escaper shared by both handlers: double every '-' and every '_'
 * (the renderer's own separator and escape characters), then encodeURIComponent.
 */
module BadgeEscape {
  import opened Wrappers
  import opened UriComponent
  import Utf8

  /** `s.replace(/c/g, rep)`: every occurrence of the character `c` replaced by `rep`. */
  function ReplaceChar(s: string, c: char, rep: string): string {
    if s == [] then []
    else (if s[0] == c then rep else [s[0]]) + ReplaceChar(s[1..], c, rep)
  }

  /** The first step of `escape`: the two `replace` calls, in the order they are written. */
  function DoubleSeparators(s: string): string {
    ReplaceChar(ReplaceChar(s, '-', "--"), '_', "__")
  }

  /** What the doubling does to a single character. */
  function DoubleChar(c: char): string {
    if c == '-' then "--" else if c == '_' then "__" else [c]
  }

  /** `escape` of api/rating.ts and api/tag.ts. */
  function Escape(s: string): string {
    EncodeURIComponent(DoubleSeparators(s))
  }

  /** The inverse of the doubling: a doubled '-' or '_' collapses to one. */
  function Collapse(s: string): string
    decreases |s|
  {
    if s == [] then []
    else if |s| >= 2 && (s[0] == '-' || s[0] == '_') && s[1] == s[0] then [s[0]] + Collapse(s[2..])
    else [s[0]] + Collapse(s[1..])
  }

  /** Undoes `Escape`: decodeURIComponent, then collapse the doubled separators. */
  function Unescape(t: string): Option<string> {
    match DecodeURIComponent(t)
    case None => None
    case Some(d) => Some(Collapse(d))
  }

  /** Read left to right, every '-' is immediately followed by a second one that it pairs with. */
  predicate HyphensPaired(s: string)
    decreases |s|
  {
    if s == [] then true
    else if s[0] != '-' then HyphensPaired(s[1..])
    else |s| >= 2 && s[1] == '-' && HyphensPaired(s[2..])
  }

  /** `s[i..j]` is a maximal run of '-'. */
  ghost predicate IsHyphenRun(s: string, i: int, j: int) {
    0 <= i < j <= |s| && (forall k :: i <= k < j ==> s[k] == '-') &&
    (i == 0 || s[i - 1] != '-') && (j == |s| || s[j] != '-')
  }

  ghost predicate EvenHyphenRuns(s: string) {
    forall i, j :: IsHyphenRun(s, i, j) ==> (j - i) % 2 == 0
  }

  lemma {:induction false} ReplaceAppend(a: string, b: string, c: char, rep: string)
    ensures ReplaceChar(a + b, c, rep) == ReplaceChar(a, c, rep) + ReplaceChar(b, c, rep)
  {
    if a == [] {
      assert a + b == b;
    } else {
      assert (a + b)[1..] == a[1..] + b;
      ReplaceAppend(a[1..], b, c, rep);
    }
  }

  lemma ReplaceAbsent(s: string, c: char, rep: string)
    requires c !in s
    ensures ReplaceChar(s, c, rep) == s
  {
    if s != [] {
      assert s[1..] + [] == s[1..];
      ReplaceAbsent(s[1..], c, rep);
    }
  }

  /**
   * Doubling replaces each '-' by "--" and each '_' by "__" and leaves every other
   * character as it is, one character at a time.
   */
  lemma DoubleSeparatorsCons(c: char, s: string)
    ensures DoubleSeparators([c] + s) == DoubleChar(c) + DoubleSeparators(s)
  {
    var t := [c] + s;
    assert t[1..] == s;
    var once := ReplaceChar(t, '-', "--");
    assert once == (if c == '-' then "--" else [c]) + ReplaceChar(s, '-', "--");
    ReplaceAppend(if c == '-' then "--" else [c], ReplaceChar(s, '-', "--"), '_', "__");
  }

  lemma {:induction false} DoubleSeparatorsAppend(a: string, b: string)
    ensures DoubleSeparators(a + b) == DoubleSeparators(a) + DoubleSeparators(b)
  {
    ReplaceAppend(a, b, '-', "--");
    ReplaceAppend(ReplaceChar(a, '-', "--"), ReplaceChar(b, '-', "--"), '_', "__");
  }

  /** The two `replace` calls touch disjoint characters, so their order does not matter. */
  lemma {:induction false} ReplacementsCommute(s: string)
    ensures ReplaceChar(ReplaceChar(s, '_', "__"), '-', "--") == DoubleSeparators(s)
  {
    if s == [] {
    } else {
      var c := s[0];
      var first := if c == '_' then "__" else [c];
      assert ReplaceChar(s, '_', "__") == first + ReplaceChar(s[1..], '_', "__");
      ReplaceAppend(first, ReplaceChar(s[1..], '_', "__"), '-', "--");
      assert ReplaceChar(first, '-', "--") == DoubleChar(c) by {
        if c != '_' { assert first[1..] == []; }
        else { assert first[1..] == "_" && first[1..][1..] == []; }
      }
      ReplacementsCommute(s[1..]);
      assert [c] + s[1..] == s;
      DoubleSeparatorsCons(c, s[1..]);
    }
  }

  /** Collapsing recovers the string that was doubled. */
  lemma {:induction false} CollapseDouble(s: string)
    ensures Collapse(DoubleSeparators(s)) == s
  {
    if s == [] {
    } else {
      DoubleSeparatorsCons(s[0], s[1..]);
      assert [s[0]] + s[1..] == s;
      var d := DoubleSeparators(s);
      var rest := DoubleSeparators(s[1..]);
      assert d == DoubleChar(s[0]) + rest;
      if s[0] == '-' || s[0] == '_' {
        assert d[2..] == rest;
      } else {
        assert d[1..] == rest;
      }
      CollapseDouble(s[1..]);
    }
  }

  /** `escape` loses nothing: decoding and collapsing its output gives back the input. */
  lemma EscapeRoundTrip(s: string)
    ensures Unescape(Escape(s)) == Some(s)
  {
    DecodeEncodeComponent(DoubleSeparators(s));
    CollapseDouble(s);
  }

  /** Every character of `escape`'s output is unescaped or part of a `%XX` triple with upper-case digits. */
  lemma EscapeIsEncodedForm(s: string)
    ensures EncodedForm(Escape(s))
  {
    EncodeIsEncodedForm(DoubleSeparators(s));
  }

  lemma EscapeCons(c: char, s: string)
    ensures Escape([c] + s) == EncodeURIComponent(DoubleChar(c)) + Escape(s)
  {
    DoubleSeparatorsCons(c, s);
    EncodeAppend(DoubleChar(c), DoubleSeparators(s));
  }

  lemma NoHyphenPaired(s: string)
    requires '-' !in s
    ensures HyphensPaired(s)
  {
    if s != [] {
      assert '-' !in s[1..];
      NoHyphenPaired(s[1..]);
    }
  }

  lemma {:induction false} PairedAppend(a: string, b: string)
    requires HyphensPaired(a) && HyphensPaired(b)
    ensures HyphensPaired(a + b)
    decreases |a|
  {
    if a == [] {
      assert a + b == b;
    } else if a[0] != '-' {
      assert (a + b)[1..] == a[1..] + b;
      PairedAppend(a[1..], b);
    } else {
      assert (a + b)[2..] == a[2..] + b;
      PairedAppend(a[2..], b);
    }
  }

  lemma EncodedDoubleChar(c: char)
    ensures EncodeURIComponent(DoubleChar(c)) == DoubleChar(EncodeChar(c)[0]) + EncodeChar(c)[1..]
    ensures HyphensPaired(EncodeURIComponent(DoubleChar(c)))
  {
    EncodeCharSeparators(c);
    var e := EncodeURIComponent(DoubleChar(c));
    if c == '-' || c == '_' {
      EncodeAppend([c], [c]);
      assert e == [c, c];
    } else {
      assert DoubleChar(c) == [c];
      assert e == EncodeChar(c) + [];
      assert EncodeChar(c)[0] != '-' && EncodeChar(c)[0] != '_' by {
        assert EncodeChar(c)[0] in EncodeChar(c);
      }
      NoHyphenPaired(e);
    }
  }

  /** In every output of `escape`, hyphens come in pairs, read left to right. */
  lemma {:induction false} EscapeHyphensPaired(s: string)
    ensures HyphensPaired(Escape(s))
  {
    if s == [] {
    } else {
      assert [s[0]] + s[1..] == s;
      EscapeCons(s[0], s[1..]);
      EncodedDoubleChar(s[0]);
      EscapeHyphensPaired(s[1..]);
      PairedAppend(EncodeURIComponent(DoubleChar(s[0])), Escape(s[1..]));
    }
  }

  /** Hyphens paired from the left means every maximal run of hyphens has even length. */
  lemma {:induction false} PairedRunEven(s: string, i: int, j: int)
    requires HyphensPaired(s) && IsHyphenRun(s, i, j)
    ensures (j - i) % 2 == 0
    decreases |s|
  {
    if s[0] != '-' {
      assert i >= 1;
      assert IsHyphenRun(s[1..], i - 1, j - 1);
      PairedRunEven(s[1..], i - 1, j - 1);
    } else if i == 0 {
      assert s[1] == '-' && j >= 2;
      if j > 2 {
        assert IsHyphenRun(s[2..], 0, j - 2);
        PairedRunEven(s[2..], 0, j - 2);
      }
    } else {
      assert s[1] == '-' && i >= 3;
      assert IsHyphenRun(s[2..], i - 2, j - 2);
      PairedRunEven(s[2..], i - 2, j - 2);
    }
  }

  /** Every maximal run of '-' in the output of `escape` has even length. */
  lemma EscapeEvenHyphenRuns(s: string)
    ensures EvenHyphenRuns(Escape(s))
  {
    EscapeHyphensPaired(s);
    forall i, j | IsHyphenRun(Escape(s), i, j)
      ensures (j - i) % 2 == 0
    {
      PairedRunEven(Escape(s), i, j);
    }
  }

  lemma DoubleEncodedChar(c: char)
    ensures DoubleSeparators(EncodeChar(c)) == EncodeURIComponent(DoubleChar(c))
  {
    EncodeCharSeparators(c);
    if c == '-' || c == '_' {
      DoubleSeparatorsCons(c, []);
      EncodeAppend([c], [c]);
      assert [c] + [] == [c];
    } else {
      assert DoubleChar(c) == [c];
      assert EncodeURIComponent([c]) == EncodeChar(c) + [];
      ReplaceAbsent(EncodeChar(c), '-', "--");
      ReplaceAbsent(EncodeChar(c), '_', "__");
    }
  }

  /**
   * Doubling and percent-encoding commute: '-' and '_' are unescaped, and no
   * `%XX` triple contains either, so doubling after encoding gives the same text.
   */
  lemma {:induction false} EscapeOrderIrrelevant(s: string)
    ensures DoubleSeparators(EncodeURIComponent(s)) == Escape(s)
  {
    if s != [] {
      var c := s[0];
      assert [c] + s[1..] == s;
      EscapeCons(c, s[1..]);
      DoubleSeparatorsAppend(EncodeChar(c), EncodeURIComponent(s[1..]));
      DoubleEncodedChar(c);
      EscapeOrderIrrelevant(s[1..]);
    }
  }

  /** The escaped text starts with '-' exactly when the text does. */
  lemma EscapeHead(s: string)
    requires s != []
    ensures Escape(s) != [] && (Escape(s)[0] == '-' <==> s[0] == '-')
  {
    assert [s[0]] + s[1..] == s;
    EscapeCons(s[0], s[1..]);
    EncodedDoubleChar(s[0]);
    EncodeCharSeparators(s[0]);
    var e := EncodeChar(s[0]);
    assert e != [] by {
      if !Unreserved(s[0]) { assert |Utf8.EncodeScalar(s[0])| >= 1; }
    }
    assert e[0] in e;
  }

  lemma ReplaceUnderscoreExample()
    ensures ReplaceChar("a--b_c", '_', "__") == "a--b__c"
  {
    assert "a--b_c" == "a--b" + "_c";
    ReplaceAppend("a--b", "_c", '_', "__");
    ReplaceAbsent("a--b", '_', "__");
  }

  /** The doubling step on the example "a-b_c". */
  lemma DoubleExample()
    ensures DoubleSeparators("a-b_c") == "a--b__c"
  {
    assert ReplaceChar("a-b_c", '-', "--") == "a--b_c";
    ReplaceUnderscoreExample();
  }

  /** `escape("a-b_c")` is the encoding of "a--b__c", which is that text itself. */
  lemma EscapeExample()
    ensures Escape("a-b_c") == "a--b__c"
  {
    DoubleExample();
    EncodeUnreserved("a--b__c");
  }
}
