/** The slug helpers of the category library: `slugifyCategory` turns a
    category name into its URL key, `unslugifyCategory` turns a URL key back
    into a display name. */
module CategorySlug {
  import opened JsText

  /** `s.replace(/\s+/g, "-")`: every maximal run of whitespace becomes one `-`. */
  function CollapseSpaces(s: string): string
    decreases |s|
  {
    if s == [] then []
    else if IsSpace(s[0]) then "-" + CollapseSpaces(TrimStart(s))
    else [s[0]] + CollapseSpaces(s[1..])
  }

  /** Every character of the replacement is a `-` or a non-whitespace
      character of the input. */
  lemma {:induction false} CollapseChars(s: string)
    ensures forall c :: c in CollapseSpaces(s) ==> c == '-' || (c in s && !IsSpace(c))
    decreases |s|
  {
    if s != [] {
      if IsSpace(s[0]) {
        var t := TrimStart(s);
        CollapseChars(t);
        assert forall c :: c in t ==> c in s by {
          forall c | c in t ensures c in s {
            var k :| 0 <= k < |t| && t[k] == c;
            assert s[|s| - |t| + k] == c;
          }
        }
      } else {
        CollapseChars(s[1..]);
      }
    }
  }

  /** `slugifyCategory(name)`: lowercase, then collapse whitespace runs. */
  function Slugify(name: string): (r: string)
    ensures forall i :: 0 <= i < |r| ==> !IsSpace(r[i]) && !IsUpperAscii(r[i])
  {
    var lowered := LowerStr(name);
    var r := CollapseSpaces(lowered);
    CollapseChars(lowered);
    assert forall i :: 0 <= i < |r| ==> r[i] in r;
    r
  }

  /** A string with no whitespace is left alone by the replacement. */
  lemma {:induction false} CollapseNoSpace(s: string)
    requires forall i :: 0 <= i < |s| ==> !IsSpace(s[i])
    ensures CollapseSpaces(s) == s
  {
    if s != [] {
      CollapseNoSpace(s[1..]);
    }
  }

  /** Slugifying is idempotent. */
  lemma SlugifyIdempotent(name: string)
    ensures Slugify(Slugify(name)) == Slugify(name)
  {
    var s := Slugify(name);
    LowerStrOfLower(s);
    CollapseNoSpace(s);
  }

  lemma {:induction false} TrimStartAppend(a: string, b: string)
    requires exists i :: 0 <= i < |a| && !IsSpace(a[i])
    ensures TrimStart(a + b) == TrimStart(a) + b
  {
    if IsSpace(a[0]) {
      assert (a + b)[1..] == a[1..] + b;
      TrimStartAppend(a[1..], b);
    }
  }

  lemma {:induction false} TrimStartOfRun(w: string, b: string)
    requires AllSpace(w)
    requires b == [] || !IsSpace(b[0])
    ensures TrimStart(w + b) == b
  {
    if w == [] {
      assert w + b == b;
    } else {
      assert (w + b)[1..] == w[1..] + b;
      TrimStartOfRun(w[1..], b);
    }
  }

  lemma CollapseUnfold(s: string)
    requires s != []
    ensures CollapseSpaces(s) == if IsSpace(s[0]) then "-" + CollapseSpaces(TrimStart(s))
                                 else [s[0]] + CollapseSpaces(s[1..])
  {
  }

  lemma ConcatHead(a: string, w: string, b: string)
    requires a != []
    ensures (a + w + b)[0] == a[0] && (a + w + b)[1..] == a[1..] + w + b
    ensures a + w + b == a + (w + b)
  {
  }

  /** One maximal whitespace run `w` between `a` and `b` becomes exactly one `-`. */
  lemma {:induction false} CollapseRun(a: string, w: string, b: string)
    requires w != [] && AllSpace(w)
    requires a == [] || !IsSpace(a[|a| - 1])
    requires b == [] || !IsSpace(b[0])
    ensures CollapseSpaces(a + w + b) == CollapseSpaces(a) + "-" + CollapseSpaces(b)
    decreases |a|, 1
  {
    if a == [] {
      assert a + w + b == w + b;
      CollapseRunAtStart(w, b);
    } else if IsSpace(a[0]) {
      CollapseRunAfterSpace(a, w, b);
    } else {
      CollapseRunAfterChar(a, w, b);
    }
  }

  lemma CollapseRunAtStart(w: string, b: string)
    requires w != [] && AllSpace(w)
    requires b == [] || !IsSpace(b[0])
    ensures CollapseSpaces(w + b) == "-" + CollapseSpaces(b)
  {
    assert (w + b)[0] == w[0];
    CollapseUnfold(w + b);
    TrimStartOfRun(w, b);
  }

  lemma {:induction false} CollapseRunAfterChar(a: string, w: string, b: string)
    requires w != [] && AllSpace(w)
    requires a != [] && !IsSpace(a[0]) && !IsSpace(a[|a| - 1])
    requires b == [] || !IsSpace(b[0])
    ensures CollapseSpaces(a + w + b) == CollapseSpaces(a) + "-" + CollapseSpaces(b)
    decreases |a|, 0
  {
    ConcatHead(a, w, b);
    CollapseUnfold(a + w + b);
    CollapseUnfold(a);
    CollapseRun(a[1..], w, b);
    ConcatAssoc4([a[0]], CollapseSpaces(a[1..]), "-", CollapseSpaces(b));
  }

  lemma {:induction false} CollapseRunAfterSpace(a: string, w: string, b: string)
    requires w != [] && AllSpace(w)
    requires a != [] && IsSpace(a[0]) && !IsSpace(a[|a| - 1])
    requires b == [] || !IsSpace(b[0])
    ensures CollapseSpaces(a + w + b) == CollapseSpaces(a) + "-" + CollapseSpaces(b)
    decreases |a|, 0
  {
    var a' := TrimStart(a);
    TrimStartKeepsLast(a);
    ConcatHead(a, w, b);
    CollapseUnfold(a + w + b);
    CollapseUnfold(a);
    TrimStartAppend(a, w + b);
    ConcatAssoc(a', w, b);
    CollapseRun(a', w, b);
    ConcatAssoc4("-", CollapseSpaces(a'), "-", CollapseSpaces(b));
  }

  lemma ConcatAssoc(x: string, y: string, z: string)
    ensures x + (y + z) == x + y + z
  {
  }

  lemma ConcatAssoc4(x: string, y: string, z: string, u: string)
    ensures x + (y + z + u) == x + y + z + u
  {
  }

  lemma {:induction false} TrimStartKeepsLast(a: string)
    requires a != [] && !IsSpace(a[|a| - 1])
    ensures TrimStart(a) != [] && TrimStart(a)[|TrimStart(a)| - 1] == a[|a| - 1]
  {
    if IsSpace(a[0]) {
      TrimStartKeepsLast(a[1..]);
    }
  }

  /** `s.split(sep)`: the pieces between occurrences of `sep`; at least one. */
  function SplitOn(s: string, sep: char): (r: seq<string>)
    ensures |r| >= 1
  {
    if s == [] then [[]]
    else
      var rest := SplitOn(s[1..], sep);
      if s[0] == sep then [[]] + rest
      else [[s[0]] + rest[0]] + rest[1..]
  }

  /** `word.charAt(0).toUpperCase() + word.slice(1)`. */
  function Capitalize(word: string): (r: string)
    ensures |r| == |word|
  {
    if word == [] then [] else [Upper(word[0])] + word[1..]
  }

  function CapitalizeAll(words: seq<string>): (r: seq<string>)
    ensures |r| == |words|
  {
    if words == [] then [] else [Capitalize(words[0])] + CapitalizeAll(words[1..])
  }

  /** `words.join([sep])`. */
  function JoinWith(words: seq<string>, sep: char): string {
    if words == [] then []
    else if |words| == 1 then words[0]
    else words[0] + [sep] + JoinWith(words[1..], sep)
  }

  /** `unslugifyCategory(slug)`. */
  function Unslugify(slug: string): string {
    JoinWith(CapitalizeAll(SplitOn(slug, '-')), ' ')
  }

  /** A one-pass reading of `Unslugify`: `-` becomes a space, and the first
      character after a `-` (or at the start) is uppercased. */
  function UnslugFrom(s: string, atStart: bool): string {
    if s == [] then []
    else if s[0] == '-' then " " + UnslugFrom(s[1..], true)
    else [if atStart then Upper(s[0]) else s[0]] + UnslugFrom(s[1..], false)
  }

  /** The pieces of `s`, joined, with the first piece not capitalized. */
  function JoinRest(s: string): string {
    var pieces := SplitOn(s, '-');
    JoinWith([pieces[0]] + CapitalizeAll(pieces[1..]), ' ')
  }

  lemma JoinPrepend(c: char, w: string, rest: seq<string>, sep: char)
    ensures JoinWith([[c] + w] + rest, sep) == [c] + JoinWith([w] + rest, sep)
  {
    if rest != [] {
      assert ([[c] + w] + rest)[1..] == rest;
      assert ([w] + rest)[1..] == rest;
    }
  }

  lemma JoinEmptyFirst(rest: seq<string>, sep: char)
    requires rest != []
    ensures JoinWith([[]] + rest, sep) == [sep] + JoinWith(rest, sep)
  {
    assert ([[]] + rest)[1..] == rest;
  }

  lemma {:induction false} UnslugifyOnePass(s: string)
    ensures Unslugify(s) == UnslugFrom(s, true)
    ensures JoinRest(s) == UnslugFrom(s, false)
    decreases |s|
  {
    if s != [] {
      var t := s[1..];
      UnslugifyOnePass(t);
      var rest := SplitOn(t, '-');
      var caps := CapitalizeAll(rest);
      if s[0] == '-' {
        assert SplitOn(s, '-') == [[]] + rest;
        assert CapitalizeAll([[]] + rest) == [[]] + caps;
        JoinEmptyFirst(caps, ' ');
        assert [[]] + CapitalizeAll(rest[1..]) == [[]] + ([rest[0]] + CapitalizeAll(rest[1..]))[1..];
        assert JoinRest(s) == JoinWith([[]] + caps, ' ');
      } else {
        var c := s[0];
        assert SplitOn(s, '-') == [[c] + rest[0]] + rest[1..];
        assert CapitalizeAll([[c] + rest[0]] + rest[1..])
          == [[Upper(c)] + rest[0]] + CapitalizeAll(rest[1..]);
        JoinPrepend(Upper(c), rest[0], CapitalizeAll(rest[1..]), ' ');
        JoinPrepend(c, rest[0], CapitalizeAll(rest[1..]), ' ');
      }
    }
  }

  /** The character `UnslugFrom(s, atStart)` puts at index `i`. */
  function DisplayCharAt(s: string, i: nat, atStart: bool): char
    requires i < |s|
  {
    if s[i] == '-' then ' '
    else if (if i == 0 then atStart else s[i - 1] == '-') then Upper(s[i])
    else s[i]
  }

  lemma {:induction false} UnslugFromAt(s: string, atStart: bool)
    ensures |UnslugFrom(s, atStart)| == |s|
    ensures forall i :: 0 <= i < |s| ==> UnslugFrom(s, atStart)[i] == DisplayCharAt(s, i, atStart)
  {
    if s != [] {
      UnslugFromAt(s[1..], s[0] == '-');
    }
  }

  /** `unslugifyCategory` keeps the length; each `-` becomes a space; the first
      character of each `-`-separated piece is uppercased; every other
      character is unchanged. */
  lemma UnslugifyAt(slug: string)
    ensures |Unslugify(slug)| == |slug|
    ensures forall i :: 0 <= i < |slug| ==>
      Unslugify(slug)[i] == (if slug[i] == '-' then ' '
                             else if i == 0 || slug[i - 1] == '-' then Upper(slug[i])
                             else slug[i])
  {
    UnslugifyOnePass(slug);
    UnslugFromAt(slug, true);
    forall i | 0 <= i < |slug|
      ensures Unslugify(slug)[i] == (if slug[i] == '-' then ' '
                                     else if i == 0 || slug[i - 1] == '-' then Upper(slug[i])
                                     else slug[i])
    {
      assert Unslugify(slug)[i] == DisplayCharAt(slug, i, true);
    }
  }

  /** The slugs `Slugify` can give back unchanged from their display name:
      ASCII only, since the case mapping is modelled for ASCII letters. */
  predicate IsPlainSlug(s: string) {
    && (forall i :: 0 <= i < |s| ==> s[i] as int < 128 && !IsSpace(s[i]) && !IsUpperAscii(s[i]))
    && (forall i :: 0 < i < |s| ==> !(s[i - 1] == '-' && s[i] == '-'))
  }

  /** `s` with each `-` replaced by a space. */
  function DashesToSpaces(s: string): (r: string)
    ensures |r| == |s|
  {
    if s == [] then [] else [if s[0] == '-' then ' ' else s[0]] + DashesToSpaces(s[1..])
  }

  lemma {:induction false} LowerUnslug(s: string, atStart: bool)
    requires forall i :: 0 <= i < |s| ==> !IsUpperAscii(s[i])
    ensures LowerStr(UnslugFrom(s, atStart)) == DashesToSpaces(s)
  {
    if s != [] {
      LowerUnslug(s[1..], s[0] == '-');
      if s[0] != '-' {
        LowerOfUpper(s[0]);
      }
    }
  }

  lemma {:induction false} CollapseDashesToSpaces(s: string)
    requires IsPlainSlug(s)
    ensures CollapseSpaces(DashesToSpaces(s)) == s
  {
    if s != [] {
      var t := s[1..];
      assert IsPlainSlug(t) by {
        forall i | 0 < i < |t| ensures !(t[i - 1] == '-' && t[i] == '-') {
          assert t[i - 1] == s[i] && t[i] == s[i + 1];
        }
      }
      CollapseDashesToSpaces(t);
      var d := DashesToSpaces(s);
      assert d[1..] == DashesToSpaces(t);
      if s[0] == '-' {
        assert DashesToSpaces(t) == [] || !IsSpace(DashesToSpaces(t)[0]) by {
          if t != [] { assert s[1] == t[0]; }
        }
        TrimStartOfRun([' '], DashesToSpaces(t));
        assert d == [' '] + DashesToSpaces(t);
      }
    }
  }

  /** Round trip: an ASCII lowercase slug without whitespace and without two `-` in
      a row comes back from its display name unchanged. */
  lemma SlugifyUnslugify(slug: string)
    requires IsPlainSlug(slug)
    ensures Slugify(Unslugify(slug)) == slug
  {
    UnslugifyOnePass(slug);
    LowerUnslug(slug, true);
    CollapseDashesToSpaces(slug);
  }

  /** The other direction does not hold: a name that is not in title case
      does not come back from its slug. `"PP"` slugifies to `"pp"` ... */
  lemma SlugOfMixedCaseName()
    ensures Slugify("PP") == "pp"
  {
  }

  /** ... and `"pp"` displays as `"Pp"`. */
  lemma DisplayOfSlug()
    ensures Unslugify("pp") == "Pp"
  {
    UnslugifyAt("pp");
  }

  /** No two whitespace characters in a row: every whitespace run is a
      single character. */
  predicate SingleSpaced(s: string) {
    forall k :: 0 < k < |s| ==> !(IsSpace(s[k - 1]) && IsSpace(s[k]))
  }

  /** `s` with each whitespace character replaced by `-`. */
  function SpacesToDashes(s: string): (r: string)
    ensures |r| == |s|
    ensures forall k :: 0 <= k < |s| ==> r[k] == if IsSpace(s[k]) then '-' else s[k]
  {
    if s == [] then [] else [if IsSpace(s[0]) then '-' else s[0]] + SpacesToDashes(s[1..])
  }

  /** On a single-spaced string the replacement turns each whitespace
      character into `-` in place. */
  lemma {:induction false} CollapseSingleSpaces(s: string)
    requires SingleSpaced(s)
    ensures CollapseSpaces(s) == SpacesToDashes(s)
  {
    if s != [] {
      var t := s[1..];
      assert SingleSpaced(t) by {
        forall k | 0 < k < |t| ensures !(IsSpace(t[k - 1]) && IsSpace(t[k])) {
          assert t[k - 1] == s[k] && t[k] == s[k + 1];
        }
      }
      CollapseSingleSpaces(t);
      if IsSpace(s[0]) {
        assert t == [] || !IsSpace(t[0]) by {
          if t != [] { assert t[0] == s[1]; }
        }
        assert s == [s[0]] + t;
        TrimStartOfRun([s[0]], t);
      }
    }
  }

  /** In general: in a single-spaced name, an ASCII capital that follows a
      character other than whitespace and `-` is lowercased by the slug and
      not uppercased again by its display name, so the name differs from
      the display name of its slug. */
  lemma NameNotRecovered(name: string, i: nat)
    requires SingleSpaced(name)
    requires 0 < i < |name| && IsUpperAscii(name[i])
    requires !IsSpace(name[i - 1]) && name[i - 1] != '-'
    ensures Unslugify(Slugify(name)) != name
  {
    var l := LowerStr(name);
    LowerSingleSpaced(name);
    CollapseSingleSpaces(l);
    var g := SpacesToDashes(l);
    assert g == Slugify(name);
    UnslugifyAt(g);
    assert g[i - 1] == Lower(name[i - 1]) != '-';
    assert Unslugify(g)[i] == g[i] == Lower(name[i]) != name[i];
  }

  lemma LowerSingleSpaced(name: string)
    requires SingleSpaced(name)
    ensures SingleSpaced(LowerStr(name))
  {
    var l := LowerStr(name);
    forall k | 0 < k < |l| ensures !(IsSpace(l[k - 1]) && IsSpace(l[k])) {
      assert IsSpace(l[k - 1]) == IsSpace(name[k - 1]);
      assert IsSpace(l[k]) == IsSpace(name[k]);
    }
  }

  /** A realistic case: the category "PP Bags" is not recovered from its
      slug. */
  lemma MixedCaseNameNotRecovered()
    ensures Unslugify(Slugify("PP Bags")) != "PP Bags"
  {
    NameNotRecovered("PP Bags", 1);
  }
}
