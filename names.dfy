/** Name cleaning and the fuzzy player-name match of the leaderboard engine
    (App.tsx, the `toLowerCase().replace(/[^a-z0-9]/g, '')` normalisation and
    the `includes` test between a slot player and a result line). Case folding
    is ASCII only. */
module Names {

  /** `toLowerCase` restricted to ASCII: 'A'..'Z' become 'a'..'z'. */
  function ToLowerAscii(c: char): (d: char)
    ensures 'A' <= c <= 'Z' ==> 'a' <= d <= 'z' && d as int - c as int == 32
    ensures !('A' <= c <= 'Z') ==> d == c
  {
    if 'A' <= c <= 'Z' then (c as int + 32) as char else c
  }

  /** The characters that survive `replace(/[^a-z0-9]/g, '')`. */
  predicate IsKept(c: char) {
    'a' <= c <= 'z' || '0' <= c <= '9'
  }

  predicate AllKept(s: string) {
    forall i :: 0 <= i < |s| ==> IsKept(s[i])
  }

  /** The comparison key of a raw name: lower-cased, everything but ASCII
      lower-case letters and digits dropped. */
  function Normalize(s: string): (r: string)
    ensures |r| <= |s|
    ensures AllKept(r)
  {
    if s == [] then []
    else
      var c := ToLowerAscii(s[0]);
      (if IsKept(c) then [c] else []) + Normalize(s[1..])
  }

  /** Normalising distributes over concatenation: it works character by character. */
  lemma {:induction false} NormalizeConcat(a: string, b: string)
    ensures Normalize(a + b) == Normalize(a) + Normalize(b)
  {
    if a == [] {
      assert a + b == b;
    } else {
      var ab := a + b;
      var c := ToLowerAscii(a[0]);
      var k: string := if IsKept(c) then [c] else [];
      assert ab[0] == a[0];
      assert ab[1..] == a[1..] + b;
      assert Normalize(ab) == k + Normalize(ab[1..]);
      assert Normalize(a) == k + Normalize(a[1..]);
      NormalizeConcat(a[1..], b);
      assert k + (Normalize(a[1..]) + Normalize(b)) == (k + Normalize(a[1..])) + Normalize(b);
    }
  }

  /** A string is left alone exactly when it already is a key. */
  lemma {:induction false} NormalizeFixpoint(s: string)
    ensures Normalize(s) == s <==> AllKept(s)
  {
    if s != [] {
      NormalizeFixpoint(s[1..]);
      if IsKept(s[0]) {
        assert AllKept(s) <==> AllKept(s[1..]);
      } else {
        assert !AllKept(s);
        assert |Normalize(s[1..])| <= |s[1..]|;
        if IsKept(ToLowerAscii(s[0])) {
          assert Normalize(s)[0] != s[0];
        } else {
          assert |Normalize(s)| < |s|;
        }
      }
    }
  }

  lemma NormalizeIdempotent(s: string)
    ensures Normalize(Normalize(s)) == Normalize(s)
  {
    NormalizeFixpoint(Normalize(s));
  }

  /** Names that differ only in ASCII letter case have the same key. */
  lemma {:induction false} NormalizeIgnoresCase(s: string, t: string)
    requires |s| == |t|
    requires forall i :: 0 <= i < |s| ==> ToLowerAscii(s[i]) == ToLowerAscii(t[i])
    ensures Normalize(s) == Normalize(t)
  {
    if s != [] {
      NormalizeIgnoresCase(s[1..], t[1..]);
    }
  }

  /** A kept character of the key comes from some character of the raw name. */
  lemma {:induction false} NormalizeOrigin(s: string, c: char)
    ensures c in Normalize(s) <==> exists i :: 0 <= i < |s| && ToLowerAscii(s[i]) == c && IsKept(c)
  {
    if s != [] {
      NormalizeOrigin(s[1..], c);
      if exists i :: 0 <= i < |s[1..]| && ToLowerAscii(s[1..][i]) == c && IsKept(c) {
        var i :| 0 <= i < |s[1..]| && ToLowerAscii(s[1..][i]) == c && IsKept(c);
        assert ToLowerAscii(s[i + 1]) == c;
      }
      if exists i :: 0 <= i < |s| && ToLowerAscii(s[i]) == c && IsKept(c) {
        var i :| 0 <= i < |s| && ToLowerAscii(s[i]) == c && IsKept(c);
        if i > 0 {
          assert ToLowerAscii(s[1..][i - 1]) == c;
        }
      }
    }
  }

  predicate IsPrefix(p: string, s: string) {
    |p| <= |s| && s[..|p|] == p
  }

  /** JavaScript's `hay.includes(needle)`: needle occurs in hay as a contiguous
      piece; the empty needle occurs in every string. */
  predicate Contains(hay: string, needle: string)
    decreases |hay|
  {
    IsPrefix(needle, hay) || (|hay| > 0 && Contains(hay[1..], needle))
  }

  predicate OccursAt(hay: string, needle: string, i: int) {
    0 <= i && i + |needle| <= |hay| && hay[i..i + |needle|] == needle
  }

  ghost predicate Occurs(hay: string, needle: string) {
    exists i :: OccursAt(hay, needle, i)
  }

  /** Dropping the first character of hay moves every occurrence one place left. */
  lemma OccursShift(hay: string, needle: string, i: int)
    requires |hay| > 0 && i >= 0
    ensures OccursAt(hay[1..], needle, i) <==> OccursAt(hay, needle, i + 1)
  {
    if i + |needle| <= |hay| - 1 {
      assert hay[1..][i..i + |needle|] == hay[i + 1..i + 1 + |needle|];
    }
  }

  /** `Contains` holds exactly when there is a position where the needle starts. */
  lemma {:induction false} ContainsIff(hay: string, needle: string)
    ensures Contains(hay, needle) <==> Occurs(hay, needle)
    decreases |hay|
  {
    if IsPrefix(needle, hay) {
      assert OccursAt(hay, needle, 0);
    } else if |hay| > 0 {
      ContainsIff(hay[1..], needle);
      if Occurs(hay[1..], needle) {
        var i :| OccursAt(hay[1..], needle, i);
        OccursShift(hay, needle, i);
        assert OccursAt(hay, needle, i + 1);
      }
      if Occurs(hay, needle) {
        var i :| OccursAt(hay, needle, i);
        assert i != 0;
        OccursShift(hay, needle, i - 1);
        assert OccursAt(hay[1..], needle, i - 1);
      }
    }
  }

  /** A needle whose first character never occurs in hay is not contained. */
  lemma {:induction false} AbsentFirstCharNotContained(hay: string, needle: string)
    requires needle != [] && needle[0] !in hay
    ensures !Contains(hay, needle)
    decreases |hay|
  {
    if |hay| > 0 {
      assert hay[0] != needle[0];
      assert forall c :: c in hay[1..] ==> c in hay;
      AbsentFirstCharNotContained(hay[1..], needle);
    }
  }

  lemma ContainsEmpty(hay: string)
    ensures Contains(hay, [])
  {
  }

  lemma ContainsSelf(s: string)
    ensures Contains(s, s)
  {
    assert s[..|s|] == s;
  }

  /** The whole match rule of the engine: either cleaned name contains the
      other, or they are equal. */
  predicate Matches(playerName: string, resultName: string) {
    var cleanP := Normalize(playerName);
    var cleanR := Normalize(resultName);
    Contains(cleanR, cleanP) || Contains(cleanP, cleanR) || cleanR == cleanP
  }

  /** The equality test adds nothing: a player and a result match exactly when
      one cleaned name starts somewhere inside the other. */
  lemma MatchesIff(playerName: string, resultName: string)
    ensures Matches(playerName, resultName) <==>
      Occurs(Normalize(resultName), Normalize(playerName)) ||
      Occurs(Normalize(playerName), Normalize(resultName))
  {
    var cleanP, cleanR := Normalize(playerName), Normalize(resultName);
    ContainsIff(cleanR, cleanP);
    ContainsIff(cleanP, cleanR);
    if cleanR == cleanP {
      assert OccursAt(cleanR, cleanP, 0);
    }
  }

  lemma MatchesSymmetric(a: string, b: string)
    ensures Matches(a, b) <==> Matches(b, a)
  {
  }

  /** A name with no letter or digit cleans to the empty key, and the empty
      key matches every name on the other side. */
  lemma EmptyKeyMatchesEverything(blank: string, other: string)
    requires Normalize(blank) == []
    ensures Matches(blank, other) && Matches(other, blank)
  {
    ContainsEmpty(Normalize(other));
  }

  /** Concrete cases: a clan tag around a roster name still matches, an
      unrelated name does not, and a name of symbols only matches anything. */
  lemma MatchExamples()
    ensures Matches("Ace", "ACE123")
    ensures !Matches("Bee", "ACE123")
    ensures Normalize("!!!") == [] && Matches("!!!", "Zed")
  {
    TagMatches();
    OtherNameFails();
    NormalizeExamples();
    EmptyKeyMatchesEverything("!!!", "Zed");
  }

  lemma TagMatches()
    ensures Matches("Ace", "ACE123")
  {
    NormalizeAce();
    NormalizeAce123();
    assert "ace123"[..3] == "ace";
    assert IsPrefix("ace", "ace123");
  }

  lemma OtherNameFails()
    ensures !Matches("Bee", "ACE123")
  {
    NormalizeBee();
    NormalizeAce123();
    BeeNotInAce();
    AceNotInBee();
  }

  lemma BeeNotInAce()
    ensures !Contains("ace123", "bee")
  {
    assert 'b' !in "ace123";
    AbsentFirstCharNotContained("ace123", "bee");
  }

  lemma AceNotInBee()
    ensures !Contains("bee", "ace123")
  {
    assert 'a' !in "bee";
    AbsentFirstCharNotContained("bee", "ace123");
  }

  lemma NormalizeExamples()
    ensures Normalize("Ace") == "ace"
    ensures Normalize("Bee") == "bee"
    ensures Normalize("ACE123") == "ace123"
    ensures Normalize("!!!") == []
  {
    NormalizeAce();
    NormalizeBee();
    NormalizeAce123();
  }

  lemma NormalizeAce()
    ensures Normalize("Ace") == "ace"
  {
    NormalizeConcat("A", "ce");
    assert "Ace" == "A" + "ce";
    NormalizeFixpoint("ce");
  }

  lemma NormalizeBee()
    ensures Normalize("Bee") == "bee"
  {
    NormalizeConcat("B", "ee");
    assert "Bee" == "B" + "ee";
    NormalizeFixpoint("ee");
  }

  lemma NormalizeAce123()
    ensures Normalize("ACE123") == "ace123"
  {
    NormalizeAceCaps();
    NormalizeConcat("ACE", "123");
    assert "ACE123" == "ACE" + "123";
    NormalizeFixpoint("123");
  }

  lemma NormalizeAceCaps()
    ensures Normalize("ACE") == "ace"
  {
    NormalizeIgnoresCase("ACE", "ace");
    NormalizeFixpoint("ace");
  }
}
