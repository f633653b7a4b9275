/** `toSnakeCase`, each `regexp.ReplaceAllString` and `strings.ReplaceAll`
    written out as a left-to-right scanner that takes the leftmost match,
    continues after it, and copies unmatched characters. */
module SnakeCase {
  import opened Text

  /** Every character of the text satisfies `P`. */
  predicate All(s: string, P: char -> bool)
  {
    forall i :: 0 <= i < |s| ==> P(s[i])
  }

  lemma AllConcat(a: string, b: string, P: char -> bool)
    ensures All(a + b, P) <==> All(a, P) && All(b, P)
  {
    if All(a, P) && All(b, P) {
      forall i | 0 <= i < |a + b| ensures P((a + b)[i]) {
        if i >= |a| { assert (a + b)[i] == b[i - |a|]; }
      }
    }
    if All(a + b, P) {
      forall i | 0 <= i < |a| ensures P(a[i]) {
        assert (a + b)[i] == a[i];
      }
      forall i | 0 <= i < |b| ensures P(b[i]) {
        assert (a + b)[|a| + i] == b[i];
      }
    }
  }

  function DigitRun(s: string): (n: nat)
    ensures n <= |s|
    ensures forall i :: 0 <= i < n ==> IsDigit(s[i])
    ensures n < |s| ==> !IsDigit(s[n])
  {
    if s != [] && IsDigit(s[0]) then 1 + DigitRun(s[1..]) else 0
  }

  function LowerRun(s: string): (n: nat)
    ensures n <= |s|
    ensures forall i :: 0 <= i < n ==> IsLower(s[i])
    ensures n < |s| ==> !IsLower(s[n])
  {
    if s != [] && IsLower(s[0]) then 1 + LowerRun(s[1..]) else 0
  }

  /** Whether `\[(\d+)\]` matches at the start of `s`, and how many digits. */
  function BracketMatch(s: string): (n: nat)
    ensures n > 0 ==> n + 2 <= |s| && s[0] == '[' && s[n + 1] == ']'
    ensures n > 0 ==> forall i :: 1 <= i <= n ==> IsDigit(s[i])
  {
    if s != [] && s[0] == '[' then
      var d := DigitRun(s[1..]);
      if d > 0 && d + 1 < |s| && s[d + 1] == ']' then d else 0
    else 0
  }

  /** `\[(\d+)\]` replaced by `.$1`: the brackets go, a dot comes in front
      of the digits, and everything else is copied. */
  function BracketIndices(s: string): (r: string)
    ensures |r| <= |s|
    ensures forall i :: 0 <= i < |r| ==> r[i] in s || r[i] == '.'
    decreases |s|
  {
    if s == [] then []
    else
      var n := BracketMatch(s);
      if n > 0 then
        "." + s[1..n + 1] + BracketIndices(s[n + 2..])
      else
        [s[0]] + BracketIndices(s[1..])
  }

  /** `strings.ReplaceAll(s, pat, rep)` for a non-empty `pat`: every
      character of the result is copied from the text or the replacement. */
  function ReplaceAll(s: string, pat: string, rep: string): (r: string)
    requires |pat| > 0
    ensures forall i :: 0 <= i < |r| ==> r[i] in s || r[i] in rep
    decreases |s|
  {
    if |s| < |pat| then s
    else if s[..|pat|] == pat then rep + ReplaceAll(s[|pat|..], pat, rep)
    else [s[0]] + ReplaceAll(s[1..], pat, rep)
  }

  /** `(.)([A-Z][a-z]+)` replaced by `${1}_${2}`; `.` is any character but
      a newline. */
  function FirstCap(s: string): (r: string)
    ensures |s| <= |r|
    ensures forall i :: 0 <= i < |r| ==> r[i] in s || r[i] == '_'
    decreases |s|
  {
    if |s| >= 3 && s[0] != '\n' && IsUpper(s[1]) && IsLower(s[2]) then
      var e := 3 + LowerRun(s[3..]);
      [s[0], '_'] + s[1..e] + FirstCap(s[e..])
    else if s == [] then []
    else [s[0]] + FirstCap(s[1..])
  }

  /** `([A-Z])([A-Z][a-z]*)` replaced by `${1}_${2}`. */
  function AllCap(s: string): (r: string)
    ensures |s| <= |r|
    ensures forall i :: 0 <= i < |r| ==> r[i] in s || r[i] == '_'
    decreases |s|
  {
    if |s| >= 2 && IsUpper(s[0]) && IsUpper(s[1]) then
      var e := 2 + LowerRun(s[2..]);
      [s[0], '_'] + s[1..e] + AllCap(s[e..])
    else if s == [] then []
    else [s[0]] + AllCap(s[1..])
  }

  /** The number of underscores the text starts with. */
  function LeadingUnderscores(s: string): (n: nat)
    ensures n <= |s|
    ensures forall k :: 0 <= k < n ==> s[k] == '_'
    ensures n < |s| ==> s[n] != '_'
  {
    if s != [] && s[0] == '_' then 1 + LeadingUnderscores(s[1..]) else 0
  }

  /** The number of underscores the text ends with. */
  function TrailingUnderscores(s: string): (n: nat)
    ensures n <= |s|
    ensures forall k :: |s| - n <= k < |s| ==> s[k] == '_'
    ensures n < |s| ==> s[|s| - n - 1] != '_'
  {
    if s != [] && s[|s| - 1] == '_' then 1 + TrailingUnderscores(s[..|s| - 1]) else 0
  }

  /** `strings.Trim(s, "_")`: the middle of `s` left after cutting every
      leading and trailing underscore. */
  function Trim(s: string): (r: string)
    ensures r == [] || (r[0] != '_' && r[|r| - 1] != '_')
    ensures exists i, j :: 0 <= i <= j <= |s| && r == s[i..j] && CutUnderscores(s, i, j)
  {
    var i := LeadingUnderscores(s);
    var m := s[i..];
    var j := TrailingUnderscores(m);
    assert m[..|m| - j] == s[i..|s| - j];
    s[i..|s| - j]
  }

  /** Everything of `s` before `i` and from `j` on is an underscore. */
  predicate CutUnderscores(s: string, i: nat, j: nat)
    requires i <= j <= |s|
  {
    (forall k :: 0 <= k < i ==> s[k] == '_') && (forall k :: j <= k < |s| ==> s[k] == '_')
  }

  const DotMarker: string := "__DOT__"

  /** `toSnakeCase`, step by step as the code does it. */
  function ToSnakeCase(s: string): (r: string)
    ensures NoUpper(r)
    ensures r == [] || (r[0] != '_' && r[|r| - 1] != '_')
    ensures '.' !in r
  {
    var s5 := LowerString(AllCap(FirstCap(ReplaceAll(BracketIndices(s), ".", DotMarker))));
    var s7 := ReplaceAll(ReplaceAll(s5, DotMarker, "."), "__", "_");
    LoweredHasNoDot(s);
    MarkerNeverRestored(s5);
    CleanupKeeps(s5);
    TrimKeeps(s7);
    Trim(s7)
  }

  /** Up to lower-casing: no dot survives the marker substitution and the
      two case-splitting passes, and no capital survives lower-casing. */
  lemma LoweredHasNoDot(s: string)
    ensures All(LowerString(AllCap(FirstCap(ReplaceAll(BracketIndices(s), ".", DotMarker)))), NotDot)
    ensures All(LowerString(AllCap(FirstCap(ReplaceAll(BracketIndices(s), ".", DotMarker)))), NotUpper)
  {
    var s2 := ReplaceAll(BracketIndices(s), ".", DotMarker);
    DotsReplaced(BracketIndices(s), s2);
    FirstCapKeeps(s2, NotDot);
    AllCapKeeps(FirstCap(s2), NotDot);
    var s4 := AllCap(FirstCap(s2));
    var s5 := LowerString(s4);
    forall i | 0 <= i < |s5| ensures NotDot(s5[i]) && NotUpper(s5[i]) {
      assert NotDot(s4[i]);
    }
  }

  /** The underscore clean-up keeps both character classes. */
  lemma CleanupKeeps(s5: string)
    requires All(s5, NotDot) && All(s5, NotUpper)
    ensures All(ReplaceAll(s5, "__", "_"), NotDot)
    ensures All(ReplaceAll(s5, "__", "_"), NotUpper)
  {
    ReplaceAllKeeps(s5, "__", "_", NotDot);
    ReplaceAllKeeps(s5, "__", "_", NotUpper);
  }

  lemma TrimKeeps(s7: string)
    requires All(s7, NotDot) && All(s7, NotUpper)
    ensures NoUpper(Trim(s7)) && '.' !in Trim(s7)
  {
    var r := Trim(s7);
    var i, j :| 0 <= i <= j <= |s7| && r == s7[i..j];
    forall k | 0 <= k < |r| ensures r[k] != '.' && !IsUpper(r[k]) {
      assert r[k] == s7[i + k];
      assert NotDot(s7[i + k]) && NotUpper(s7[i + k]);
    }
  }

  predicate NotDot(c: char) { c != '.' }

  predicate NotUpper(c: char) { !IsUpper(c) }

  /** Replacing every dot by the marker leaves no dot behind. */
  lemma DotsReplaced(s: string, r: string)
    requires r == ReplaceAll(s, ".", DotMarker)
    ensures All(r, NotDot)
  {
    ReplaceAllRemoves(s, '.', DotMarker);
  }

  /** Replacing a single character by text without it removes it everywhere. */
  lemma {:induction false} ReplaceAllRemoves(s: string, c: char, rep: string)
    requires c !in rep
    ensures All(ReplaceAll(s, [c], rep), (x: char) => x != c)
    decreases |s|
  {
    var P := (x: char) => x != c;
    if |s| >= 1 {
      ReplaceAllRemoves(s[1..], c, rep);
      if s[..1] == [c] {
        assert All(rep, P);
        AllConcat(rep, ReplaceAll(s[1..], [c], rep), P);
      } else {
        AllConcat([s[0]], ReplaceAll(s[1..], [c], rep), P);
      }
    }
  }

  /** A character class that holds of the text and of the replacement
      holds of the result of `ReplaceAll`. */
  lemma {:induction false} ReplaceAllKeeps(s: string, pat: string, rep: string, P: char -> bool)
    requires |pat| > 0 && All(s, P) && All(rep, P)
    ensures All(ReplaceAll(s, pat, rep), P)
    decreases |s|
  {
    if |s| >= |pat| {
      if s[..|pat|] == pat {
        ReplaceAllKeeps(s[|pat|..], pat, rep, P);
        AllConcat(rep, ReplaceAll(s[|pat|..], pat, rep), P);
      } else {
        ReplaceAllKeeps(s[1..], pat, rep, P);
        AllConcat([s[0]], ReplaceAll(s[1..], pat, rep), P);
      }
    }
  }

  /** The case-splitting passes add only underscores, so a character class
      that admits the underscore and holds of the input holds of the output. */
  lemma {:induction false} FirstCapKeeps(s: string, P: char -> bool)
    requires All(s, P) && P('_')
    ensures All(FirstCap(s), P)
    decreases |s|
  {
    if |s| >= 3 && s[0] != '\n' && IsUpper(s[1]) && IsLower(s[2]) {
      var e := 3 + LowerRun(s[3..]);
      FirstCapKeeps(s[e..], P);
      AllConcat([s[0], '_'] + s[1..e], FirstCap(s[e..]), P);
      AllConcat([s[0], '_'], s[1..e], P);
    } else if s != [] {
      FirstCapKeeps(s[1..], P);
      AllConcat([s[0]], FirstCap(s[1..]), P);
    }
  }

  lemma {:induction false} AllCapKeeps(s: string, P: char -> bool)
    requires All(s, P) && P('_')
    ensures All(AllCap(s), P)
    decreases |s|
  {
    if |s| >= 2 && IsUpper(s[0]) && IsUpper(s[1]) {
      var e := 2 + LowerRun(s[2..]);
      AllCapKeeps(s[e..], P);
      AllConcat([s[0], '_'] + s[1..e], AllCap(s[e..]), P);
      AllConcat([s[0], '_'], s[1..e], P);
    } else if s != [] {
      AllCapKeeps(s[1..], P);
      AllConcat([s[0]], AllCap(s[1..]), P);
    }
  }

  /** A pattern with a character the text lacks is never found, so the
      replacement returns the text unchanged. */
  lemma {:induction false} ReplaceAllAbsent(s: string, pat: string, rep: string, k: nat)
    requires |pat| > 0 && k < |pat| && pat[k] !in s
    ensures ReplaceAll(s, pat, rep) == s
    decreases |s|
  {
    if |s| >= |pat| && s[..|pat|] != pat {
      ReplaceAllAbsent(s[1..], pat, rep, k);
    }
  }

  /** After lower-casing, the marker (spelled with capitals) cannot occur,
      so the step meant to turn it back into a dot changes nothing. */
  lemma MarkerNeverRestored(s: string)
    requires All(s, NotUpper)
    ensures ReplaceAll(s, DotMarker, ".") == s
  {
    assert IsUpper(DotMarker[2]);
    forall k | 0 <= k < |s| ensures s[k] != DotMarker[2] {
      assert NotUpper(s[k]);
    }
    ReplaceAllAbsent(s, DotMarker, ".", 2);
  }

  /** The text with every underscore deleted. */
  function EraseUnderscores(s: string): (r: string)
    ensures '_' !in r
  {
    if s == [] then [] else (if s[0] == '_' then [] else [s[0]]) + EraseUnderscores(s[1..])
  }

  lemma {:induction false} EraseConcat(a: string, b: string)
    ensures EraseUnderscores(a + b) == EraseUnderscores(a) + EraseUnderscores(b)
    decreases |a|
  {
    if a != [] {
      var ab := a + b;
      assert ab[0] == a[0];
      assert ab[1..] == a[1..] + b;
      EraseConcat(a[1..], b);
      var head := if a[0] == '_' then [] else [a[0]];
      assert EraseUnderscores(ab) == head + EraseUnderscores(ab[1..]);
      assert EraseUnderscores(a) == head + EraseUnderscores(a[1..]);
      var x, y := EraseUnderscores(a[1..]), EraseUnderscores(b);
      assert head + (x + y) == (head + x) + y;
    } else {
      assert a + b == b;
    }
  }

  /** Inserting one underscore after the first character of a block does
      not change what is left once underscores are deleted. */
  lemma EraseInsert(c: char, mid: string, rest: string, restOut: string)
    requires EraseUnderscores(restOut) == EraseUnderscores(rest)
    ensures EraseUnderscores([c, '_'] + mid + restOut) == EraseUnderscores([c] + mid + rest)
  {
    EraseConcat([c, '_'] + mid, restOut);
    EraseConcat([c, '_'], mid);
    assert EraseUnderscores([c, '_']) == EraseUnderscores([c]) by {
      assert [c, '_'][1..] == ['_'];
      assert ['_'][1..] == [];
    }
    EraseConcat([c] + mid, rest);
    EraseConcat([c], mid);
  }

  lemma SplitAt(s: string, e: nat)
    requires 1 <= e <= |s|
    ensures s == [s[0]] + s[1..e] + s[e..]
  {
    assert s[1..] == s[1..e] + s[e..];
  }

  /** Copying the first character unchanged keeps the property. */
  lemma EraseCopy(c: char, rest: string, restOut: string)
    requires EraseUnderscores(restOut) == EraseUnderscores(rest)
    ensures EraseUnderscores([c] + restOut) == EraseUnderscores([c] + rest)
  {
    EraseConcat([c], restOut);
    EraseConcat([c], rest);
  }

  /** The two case-splitting passes only insert underscores: deleting all
      underscores from their output gives back the input with its own
      underscores deleted. */
  lemma {:induction false} FirstCapOnlyInsertsUnderscores(s: string)
    ensures EraseUnderscores(FirstCap(s)) == EraseUnderscores(s)
    decreases |s|
  {
    if |s| >= 3 && s[0] != '\n' && IsUpper(s[1]) && IsLower(s[2]) {
      var e := 3 + LowerRun(s[3..]);
      var mid, rest := s[1..e], s[e..];
      FirstCapOnlyInsertsUnderscores(rest);
      EraseInsert(s[0], mid, rest, FirstCap(rest));
      SplitAt(s, e);
    } else if s != [] {
      FirstCapOnlyInsertsUnderscores(s[1..]);
      EraseCopy(s[0], s[1..], FirstCap(s[1..]));
      assert s == [s[0]] + s[1..];
    }
  }

  lemma {:induction false} AllCapOnlyInsertsUnderscores(s: string)
    ensures EraseUnderscores(AllCap(s)) == EraseUnderscores(s)
    decreases |s|
  {
    if |s| >= 2 && IsUpper(s[0]) && IsUpper(s[1]) {
      var e := 2 + LowerRun(s[2..]);
      var mid, rest := s[1..e], s[e..];
      AllCapOnlyInsertsUnderscores(rest);
      EraseInsert(s[0], mid, rest, AllCap(rest));
      SplitAt(s, e);
    } else if s != [] {
      AllCapOnlyInsertsUnderscores(s[1..]);
      EraseCopy(s[0], s[1..], AllCap(s[1..]));
      assert s == [s[0]] + s[1..];
    }
  }

  /** A bracketed run of digits becomes a dot followed by the digits. */
  lemma BracketIndexRewritten(ds: string, rest: string)
    requires |ds| > 0 && forall i :: 0 <= i < |ds| ==> IsDigit(ds[i])
    ensures BracketIndices("[" + ds + "]" + rest) == "." + ds + BracketIndices(rest)
  {
    var s := "[" + ds + "]" + rest;
    assert s[1..][..|ds|] == ds;
    assert DigitRun(s[1..]) == |ds| by {
      DigitRunOfDigits(ds, "]" + rest);
      assert s[1..] == ds + ("]" + rest);
    }
    assert s[1..|ds| + 1] == ds;
    assert s[|ds| + 2..] == rest;
  }

  lemma {:induction false} DigitRunOfDigits(ds: string, rest: string)
    requires forall i :: 0 <= i < |ds| ==> IsDigit(ds[i])
    requires rest == [] || !IsDigit(rest[0])
    ensures DigitRun(ds + rest) == |ds|
    decreases |ds|
  {
    if ds != [] {
      assert (ds + rest)[1..] == ds[1..] + rest;
      DigitRunOfDigits(ds[1..], rest);
    } else {
      assert ds + rest == rest;
    }
  }

  /** Text without an opening bracket passes the index rewrite unchanged. */
  lemma {:induction false} NoBracketUnchanged(s: string)
    requires '[' !in s
    ensures BracketIndices(s) == s
    decreases |s|
  {
    if s != [] {
      NoBracketUnchanged(s[1..]);
      assert s == [s[0]] + s[1..];
    }
  }

  /** Deleting underscores commutes with lower-casing, as lower-casing
      neither makes nor removes an underscore. */
  lemma {:induction false} EraseLower(s: string)
    ensures EraseUnderscores(LowerString(s)) == LowerString(EraseUnderscores(s))
    decreases |s|
  {
    if s != [] {
      var l := LowerString(s);
      assert l[1..] == LowerString(s[1..]);
      EraseLower(s[1..]);
      var head := if s[0] == '_' then [] else [s[0]];
      LowerConcat(head, EraseUnderscores(s[1..]));
    }
  }

  lemma LowerConcat(a: string, b: string)
    ensures LowerString(a + b) == LowerString(a) + LowerString(b)
  {
    var l, r := LowerString(a + b), LowerString(a) + LowerString(b);
    forall i | 0 <= i < |l| ensures l[i] == r[i] {
      if i < |a| { assert (a + b)[i] == a[i]; } else { assert (a + b)[i] == b[i - |a|]; }
    }
  }

  /** Text made only of underscores disappears when underscores are deleted. */
  lemma {:induction false} EraseOnlyUnderscores(s: string)
    requires forall k :: 0 <= k < |s| ==> s[k] == '_'
    ensures EraseUnderscores(s) == []
    decreases |s|
  {
    if s != [] {
      EraseOnlyUnderscores(s[1..]);
    }
  }

  /** Replacing one run of underscores by another, as the `__` clean-up
      does, changes nothing once underscores are deleted. */
  lemma {:induction false} EraseReplaceUnderscores(s: string, pat: string, rep: string)
    requires |pat| > 0
    requires forall k :: 0 <= k < |pat| ==> pat[k] == '_'
    requires forall k :: 0 <= k < |rep| ==> rep[k] == '_'
    ensures EraseUnderscores(ReplaceAll(s, pat, rep)) == EraseUnderscores(s)
    decreases |s|
  {
    if |s| >= |pat| {
      if s[..|pat|] == pat {
        var rest := s[|pat|..];
        EraseReplaceUnderscores(rest, pat, rep);
        EraseConcat(rep, ReplaceAll(rest, pat, rep));
        EraseOnlyUnderscores(rep);
        assert s == pat + rest;
        EraseConcat(pat, rest);
        EraseOnlyUnderscores(pat);
      } else {
        EraseReplaceUnderscores(s[1..], pat, rep);
        EraseCopy(s[0], s[1..], ReplaceAll(s[1..], pat, rep));
        assert s == [s[0]] + s[1..];
      }
    }
  }

  /** Cutting leading underscores changes nothing once underscores are
      deleted. */
  lemma EraseDropFront(s: string, i: nat)
    requires i <= |s| && forall k :: 0 <= k < i ==> s[k] == '_'
    ensures EraseUnderscores(s[i..]) == EraseUnderscores(s)
  {
    var front := s[..i];
    assert s == front + s[i..];
    forall k | 0 <= k < |front| ensures front[k] == '_' {
      assert front[k] == s[k];
    }
    EraseConcat(front, s[i..]);
    EraseOnlyUnderscores(front);
  }

  /** Cutting trailing underscores changes nothing once underscores are
      deleted. */
  lemma EraseDropBack(s: string, j: nat)
    requires j <= |s| && forall k :: j <= k < |s| ==> s[k] == '_'
    ensures EraseUnderscores(s[..j]) == EraseUnderscores(s)
  {
    var back := s[j..];
    assert s == s[..j] + back;
    forall k | 0 <= k < |back| ensures back[k] == '_' {
      assert back[k] == s[j + k];
    }
    EraseConcat(s[..j], back);
    EraseOnlyUnderscores(back);
  }

  /** Cutting underscores from both ends changes nothing once underscores
      are deleted. */
  lemma EraseCut(s: string, i: nat, j: nat)
    requires i <= j <= |s| && CutUnderscores(s, i, j)
    ensures EraseUnderscores(s[i..j]) == EraseUnderscores(s)
  {
    EraseDropFront(s, i);
    var t := s[i..];
    forall k | j - i <= k < |t| ensures t[k] == '_' {
      assert t[k] == s[i + k];
    }
    EraseDropBack(t, j - i);
    assert t[..j - i] == s[i..j];
  }

  /** Trimming cuts underscores only. */
  lemma EraseTrim(s: string)
    ensures EraseUnderscores(Trim(s)) == EraseUnderscores(s)
  {
    var i, j :| 0 <= i <= j <= |s| && Trim(s) == s[i..j] && CutUnderscores(s, i, j);
    EraseCut(s, i, j);
  }

  /** For a field path without dots and brackets, the key keeps every
      character that is not an underscore, in order and lower-cased: the
      conversion only inserts, collapses and trims underscores. */
  lemma ToSnakeCaseKeepsContent(s: string)
    requires '.' !in s && '[' !in s
    ensures EraseUnderscores(ToSnakeCase(s)) == LowerString(EraseUnderscores(s))
  {
    NoBracketUnchanged(s);
    ReplaceAllAbsent(s, ".", DotMarker, 0);
    var s3 := FirstCap(s);
    FirstCapOnlyInsertsUnderscores(s);
    var s4 := AllCap(s3);
    AllCapOnlyInsertsUnderscores(s3);
    var s5 := LowerString(s4);
    EraseLower(s4);
    assert All(s5, NotUpper);
    MarkerNeverRestored(s5);
    var s7 := ReplaceAll(s5, "__", "_");
    EraseReplaceUnderscores(s5, "__", "_");
    assert ToSnakeCase(s) == Trim(s7);
    EraseTrim(s7);
  }
}
