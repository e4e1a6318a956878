/** The pure part of the rewriter: from the text extracted at a citation's
    anchor to the search URL. Each function follows one expression chain of
    the source: Regex.Split for the delimiter, Substring for the cap, a chain
    of String.Replace calls for the sanitizer and a concatenation for the URL.
    Characters are Unicode scalar values; `\d` is taken as ASCII '0'..'9'. */
module CitationText {
  import opened Variants

  /** Ordinal prefix test (String.StartsWith without culture rules). */
  predicate StartsWith(s: string, prefix: string) {
    |prefix| <= |s| && s[..|prefix|] == prefix
  }

  predicate IsDigit(c: char) { '0' <= c <= '9' }

  /** A match of the pattern \d{4} begins at position i of s. */
  predicate DigitRunAt(s: string, i: int) {
    0 <= i && i + 4 <= |s|
    && IsDigit(s[i]) && IsDigit(s[i + 1]) && IsDigit(s[i + 2]) && IsDigit(s[i + 3])
  }

  predicate HasDigitRun(s: string) {
    exists i | 0 <= i < |s| :: DigitRunAt(s, i)
  }

  // ---------------------------------------------------------------------------
  // Citation text delimiter

  /** Regex.Split(text, @"\d{4}")[0]: everything before the leftmost run of
      four digits, or the whole text when there is none. The ensures clauses
      pin the result down (BeforeDigitRunUnique): a prefix before which no
      run starts, ending where the first run starts. */
  function BeforeDigitRun(s: string): (r: string)
    ensures StartsWith(s, r)
    ensures forall i :: 0 <= i < |r| ==> !DigitRunAt(s, i)
    ensures !HasDigitRun(r)
    ensures |r| < |s| ==> DigitRunAt(s, |r|)
  {
    if |s| < 4 then s
    else if DigitRunAt(s, 0) then []
    else
      var rest := BeforeDigitRun(s[1..]);
      var r := [s[0]] + rest;
      assert forall i :: 0 < i < |r| ==> !DigitRunAt(s, i) by {
        forall i | 0 < i < |r| && DigitRunAt(s, i) ensures false {
          assert DigitRunAt(s[1..], i - 1);
        }
      }
      assert !HasDigitRun(r) by {
        forall i | DigitRunAt(r, i) ensures false {
          if i > 0 {
            assert DigitRunAt(rest, i - 1);
          }
        }
      }
      r
  }

  const MaxQueryLength: nat := 400

  /** The delimited citation text: the text before the first digit run,
      cut at 400 characters in cite_link_changer.cs. */
  function Delimit(text: string, v: Variant): (r: string)
    ensures StartsWith(text, r)
    ensures forall i :: 0 <= i < |r| ==> !DigitRunAt(text, i)
    ensures !HasDigitRun(r)
    ensures v.CapsLength() ==> |r| <= MaxQueryLength
    ensures |r| < |text| ==> DigitRunAt(text, |r|) || (v.CapsLength() && |r| == MaxQueryLength)
    ensures !HasDigitRun(text) && (!v.CapsLength() || |text| <= MaxQueryLength) ==> r == text
  {
    var cutoff := BeforeDigitRun(text);
    if v.CapsLength() && |cutoff| > MaxQueryLength then
      var r := cutoff[..MaxQueryLength];
      assert !HasDigitRun(r) by {
        forall i | DigitRunAt(r, i) ensures DigitRunAt(cutoff, i) { }
      }
      r
    else cutoff
  }

  // ---------------------------------------------------------------------------
  // Query sanitizer

  /** s with every character of `bad` removed, the others kept in order. */
  function Strip(s: string, bad: set<char>): (r: string)
    ensures |r| <= |s|
    ensures forall c :: c in r <==> c in s && c !in bad
  {
    if s == [] then []
    else (if s[0] in bad then [] else [s[0]]) + Strip(s[1..], bad)
  }

  /** A chain of s.Replace(c, "") calls, one per character of cs, in order. */
  function RemoveEach(s: string, cs: seq<char>): string
    decreases cs
  {
    if cs == [] then s else RemoveEach(Strip(s, {cs[0]}), cs[1..])
  }

  /** s.Replace("..", ""): scanning left to right, each ".." found is dropped
      and the scan resumes after it (leftmost, non-overlapping matches). */
  function RemoveDoubleDots(s: string): (r: string)
    ensures NoDoubleDot(r)
    ensures forall c :: c in r ==> c in s
    ensures |s| > 0 && s[0] != '.' ==> |r| > 0 && r[0] == s[0]
  {
    if |s| < 2 then s
    else if s[0] == '.' && s[1] == '.' then RemoveDoubleDots(s[2..])
    else [s[0]] + RemoveDoubleDots(s[1..])
  }

  predicate NoDoubleDot(s: string) {
    forall i :: 0 <= i < |s| - 1 ==> !(s[i] == '.' && s[i + 1] == '.')
  }

  /** s.Replace(" ", "+"). */
  function SpacesToPlus(s: string): (r: string)
    ensures |r| == |s|
    ensures forall i :: 0 <= i < |s| ==> r[i] == if s[i] == ' ' then '+' else s[i]
    ensures forall c :: c in r ==> c == '+' || (c in s && c != ' ')
  {
    if s == [] then []
    else [if s[0] == ' ' then '+' else s[0]] + SpacesToPlus(s[1..])
  }

  /** The characters each variant removes one Replace at a time, in the
      source's order; U+201C is the left curly quote (the right one, U+201D,
      is not removed). */
  function StrippedChars(v: Variant): seq<char> {
    if v.StripsReserved() then ['\r', '\n', '(', ')', '\U{201C}', '"', '_', '*', '-', '|']
    else ['\r', '\n']
  }

  function CharSet(cs: seq<char>): set<char> {
    set c | c in cs
  }

  /** The Replace calls before the last one: the stripped characters
      removed, then ".." removed in the variant that strips reserved ones. */
  function StripQuery(text: string, v: Variant): (r: string)
    ensures forall c :: c in r ==> c in text && c !in StrippedChars(v)
    ensures v.StripsReserved() ==> NoDoubleDot(r)
  {
    RemoveEachStrips(text, StrippedChars(v));
    var stripped := RemoveEach(text, StrippedChars(v));
    assert forall c :: c in StrippedChars(v) ==> c in CharSet(StrippedChars(v));
    if v.StripsReserved() then RemoveDoubleDots(stripped) else stripped
  }

  /** The sanitized search query built from the delimited text. */
  function Sanitize(text: string, v: Variant): (r: string)
    ensures '\r' !in r && '\n' !in r && ' ' !in r
    ensures forall c :: c in StrippedChars(v) ==> c !in r
    ensures v.StripsReserved() ==> NoDoubleDot(r)
  {
    var joined := StripQuery(text, v);
    assert '\r' in StrippedChars(v) && '\n' in StrippedChars(v) && '+' !in StrippedChars(v);
    SpacesToPlusKeepsNoDoubleDot(joined);
    SpacesToPlus(joined)
  }

  /** Replace(" ", "+") creates no "..". */
  lemma SpacesToPlusKeepsNoDoubleDot(s: string)
    ensures NoDoubleDot(s) ==> NoDoubleDot(SpacesToPlus(s))
  {
  }

  // ---------------------------------------------------------------------------
  // URL construction

  const SearchPrefix := "http://www.google.com/search?q="
  const SearchSuffix := "&btnI"

  /** The "I'm feeling lucky" search URL; the query can be read back out of it. */
  function SearchUrl(query: string): (url: string)
    ensures StartsWith(url, SearchPrefix)
    ensures |url| == |SearchPrefix| + |query| + |SearchSuffix|
    ensures url[|SearchPrefix|..|SearchPrefix| + |query|] == query
    ensures url[|SearchPrefix| + |query|..] == SearchSuffix
  {
    SearchPrefix + query + SearchSuffix
  }

  // ---------------------------------------------------------------------------
  // Lemmas

  /** Removing A and then B is removing A + B at once. */
  lemma {:induction false} StripTwice(s: string, a: set<char>, b: set<char>)
    ensures Strip(Strip(s, a), b) == Strip(s, a + b)
  {
    if s != [] {
      StripTwice(s[1..], a, b);
      var t := Strip(s, a);
      if s[0] in a {
        assert t == Strip(s[1..], a);
      } else {
        assert t == [s[0]] + Strip(s[1..], a);
        assert t[1..] == Strip(s[1..], a);
      }
    }
  }

  /** The Replace chain removes exactly the characters of cs. */
  lemma {:induction false} RemoveEachStrips(s: string, cs: seq<char>)
    ensures RemoveEach(s, cs) == Strip(s, CharSet(cs))
    decreases cs
  {
    if cs == [] {
      assert CharSet(cs) == {};
      StripNothing(s, {});
    } else {
      RemoveEachStrips(Strip(s, {cs[0]}), cs[1..]);
      StripTwice(s, {cs[0]}, CharSet(cs[1..]));
      assert {cs[0]} + CharSet(cs[1..]) == CharSet(cs);
    }
  }

  /** Strip leaves a string alone when none of its characters is to be removed. */
  lemma {:induction false} StripNothing(s: string, bad: set<char>)
    requires forall c :: c in s ==> c !in bad
    ensures Strip(s, bad) == s
  {
    if s != [] {
      StripNothing(s[1..], bad);
    }
  }

  /** Replace("..", "") leaves a string without ".." unchanged. */
  lemma {:induction false} RemoveDoubleDotsNothing(s: string)
    requires NoDoubleDot(s)
    ensures RemoveDoubleDots(s) == s
  {
    if |s| >= 2 {
      assert !(s[0] == '.' && s[1] == '.');
      RemoveDoubleDotsNothing(s[1..]);
    }
  }

  /** Replace("..", "") only ever removes dots: the other characters survive in order. */
  lemma {:induction false} RemoveDoubleDotsKeepsOthers(s: string)
    ensures Strip(RemoveDoubleDots(s), {'.'}) == Strip(s, {'.'})
  {
    if |s| >= 2 {
      if s[0] == '.' && s[1] == '.' {
        RemoveDoubleDotsKeepsOthers(s[2..]);
        assert s[1..][1..] == s[2..];
      } else {
        RemoveDoubleDotsKeepsOthers(s[1..]);
        assert ([s[0]] + RemoveDoubleDots(s[1..]))[1..] == RemoveDoubleDots(s[1..]);
      }
    }
  }

  function Dots(k: nat): (r: string)
    ensures |r| == k && forall i :: 0 <= i < k ==> r[i] == '.'
  {
    if k == 0 then [] else ['.'] + Dots(k - 1)
  }

  /** A run of k dots at the start of the text comes out as k mod 2 dots. */
  lemma {:induction false} LeadingDotRunHalves(k: nat, rest: string)
    requires rest == [] || rest[0] != '.'
    ensures RemoveDoubleDots(Dots(k) + rest) == Dots(k % 2) + RemoveDoubleDots(rest)
  {
    var s := Dots(k) + rest;
    if k >= 2 {
      assert s[0] == '.' && s[1] == '.';
      assert Dots(k) == ['.', '.'] + Dots(k - 2);
      assert s[2..] == Dots(k - 2) + rest;
      LeadingDotRunHalves(k - 2, rest);
      assert (k - 2) % 2 == k % 2;
    } else if k == 1 {
      assert s[1..] == rest;
    } else {
      assert s == rest;
    }
  }

  /** The scan never carries a match across a non-dot: text cut after a
      character other than '.' is processed piece by piece. */
  lemma {:induction false} RemoveDoubleDotsSplit(p: string, q: string)
    requires p == [] || p[|p| - 1] != '.'
    ensures RemoveDoubleDots(p + q) == RemoveDoubleDots(p) + RemoveDoubleDots(q)
    decreases |p|
  {
    if p == [] {
      assert p + q == q;
    } else if |p| >= 2 && p[0] == '.' && p[1] == '.' {
      RemoveDoubleDotsPairStep(p, q);
      RemoveDoubleDotsSplit(p[2..], q);
    } else {
      RemoveDoubleDotsKeepStep(p, q);
      RemoveDoubleDotsSplit(p[1..], q);
      ConsAppend(p[0], RemoveDoubleDots(p[1..]), RemoveDoubleDots(q));
    }
  }

  lemma ConsAppend(c: char, x: string, y: string)
    ensures [c] + (x + y) == [c] + x + y
  {
  }

  /** A leading ".." is dropped, with or without q after it. */
  lemma RemoveDoubleDotsPairStep(p: string, q: string)
    requires |p| >= 2 && p[0] == '.' && p[1] == '.'
    ensures RemoveDoubleDots(p + q) == RemoveDoubleDots(p[2..] + q)
    ensures RemoveDoubleDots(p) == RemoveDoubleDots(p[2..])
  {
    assert (p + q)[2..] == p[2..] + q;
  }

  /** A leading character that does not start a ".." is kept, with or
      without q after it, as long as p does not end in a dot. */
  lemma RemoveDoubleDotsKeepStep(p: string, q: string)
    requires p != [] && p[|p| - 1] != '.'
    requires !(|p| >= 2 && p[0] == '.' && p[1] == '.')
    ensures RemoveDoubleDots(p + q) == [p[0]] + RemoveDoubleDots(p[1..] + q)
    ensures RemoveDoubleDots(p) == [p[0]] + RemoveDoubleDots(p[1..])
  {
    assert (p + q)[1..] == p[1..] + q;
    if |p| == 1 {
      assert p[1..] == [];
      if q == [] {
        assert p + q == p;
      }
    }
  }

  /** A maximal run of k dots anywhere in the text (after a non-dot or at the
      start, before a non-dot or at the end) comes out of Replace("..", "")
      as k mod 2 dots, the text on either side processed on its own. */
  lemma DotRunHalves(before: string, k: nat, after: string)
    requires before == [] || before[|before| - 1] != '.'
    requires after == [] || after[0] != '.'
    ensures RemoveDoubleDots(before + (Dots(k) + after))
         == RemoveDoubleDots(before) + (Dots(k % 2) + RemoveDoubleDots(after))
  {
    RemoveDoubleDotsSplit(before, Dots(k) + after);
    LeadingDotRunHalves(k, after);
  }

  /** Removing characters other than ' ' and '+' commutes with Replace(" ", "+"). */
  lemma {:induction false} StripSpacesToPlus(s: string, bad: set<char>)
    requires ' ' !in bad && '+' !in bad
    ensures Strip(SpacesToPlus(s), bad) == SpacesToPlus(Strip(s, bad))
  {
    if s != [] {
      StripSpacesToPlus(s[1..], bad);
      var t := SpacesToPlus(s);
      assert t[1..] == SpacesToPlus(s[1..]);
      if s[0] !in bad {
        assert ([s[0]] + Strip(s[1..], bad))[1..] == Strip(s[1..], bad);
      }
    }
  }

  /** Sanitizing a sanitized query changes nothing. */
  lemma SanitizeIdempotent(text: string, v: Variant)
    ensures Sanitize(Sanitize(text, v), v) == Sanitize(text, v)
  {
    var r := Sanitize(text, v);
    assert Sanitize(r, v) == SpacesToPlus(StripQuery(r, v));
    RemoveEachStrips(r, StrippedChars(v));
    StripNothing(r, CharSet(StrippedChars(v)));
    if v.StripsReserved() {
      RemoveDoubleDotsNothing(r);
    }
    assert SpacesToPlus(r) == r;
  }

  /** Apart from dots, the query is the text with the stripped characters
      removed and spaces turned into '+', in the original order; the variant
      that does not strip reserved characters keeps dots as well. */
  lemma SanitizeKeepsOthers(text: string, v: Variant)
    ensures Strip(Sanitize(text, v), {'.'})
         == SpacesToPlus(Strip(text, CharSet(StrippedChars(v)) + {'.'}))
    ensures !v.StripsReserved() ==> Sanitize(text, v) == SpacesToPlus(Strip(text, {'\r', '\n'}))
  {
    var bad := CharSet(StrippedChars(v));
    var stripped := RemoveEach(text, StrippedChars(v));
    RemoveEachStrips(text, StrippedChars(v));
    var joined := if v.StripsReserved() then RemoveDoubleDots(stripped) else stripped;
    StripSpacesToPlus(joined, {'.'});
    if v.StripsReserved() {
      RemoveDoubleDotsKeepsOthers(stripped);
    } else {
      assert bad == {'\r', '\n'};
    }
    StripTwice(text, bad, {'.'});
  }

  /** The delimiter's contract has exactly one solution. */
  lemma BeforeDigitRunUnique(s: string, p: string)
    requires StartsWith(s, p)
    requires forall i :: 0 <= i < |p| ==> !DigitRunAt(s, i)
    requires |p| < |s| ==> DigitRunAt(s, |p|)
    ensures BeforeDigitRun(s) == p
  {
  }

  /** A bibliography entry with a year: the citation text is the author part. */
  lemma DelimitExample(v: Variant)
    ensures Delimit("Smith, J. 2019. A Great Paper.", v) == "Smith, J. "
  {
    var text := "Smith, J. 2019. A Great Paper.";
    var author := "Smith, J. ";
    assert text[..10] == author;
    forall i | 0 <= i < 10 ensures !DigitRunAt(text, i) {
      assert text[i] == author[i];
    }
    BeforeDigitRunUnique(text, author);
  }

  /** Text that holds none of the stripped characters (and, where the variant
      strips reserved characters, no "..") only has its spaces turned into '+'. */
  lemma SanitizeCleanText(text: string, v: Variant)
    requires forall c :: c in text ==> c !in StrippedChars(v)
    requires v.StripsReserved() ==> NoDoubleDot(text)
    ensures Sanitize(text, v) == SpacesToPlus(text)
  {
    StripNothing(text, CharSet(StrippedChars(v)));
    RemoveEachStrips(text, StrippedChars(v));
    if v.StripsReserved() {
      RemoveDoubleDotsNothing(text);
    }
  }
}
