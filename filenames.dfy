/**
 * Archive names derived from note titles: Note.filename, two regex passes
 * that replace each run of characters that are neither word nor whitespace
 * by '_' and then each whitespace run by one ' ', and Note.full_filename,
 * pathlib's with_suffix(".bearnote") applied to that name.
 */
module Filenames {
  import opened Wrappers
  import opened Paths

  /** Python's `\s` on str patterns: the characters str.isspace accepts. */
  predicate IsSpace(c: char) {
    c == ' ' || '\t' <= c <= '\r' || '\U{1C}' <= c <= '\U{1F}' ||
    c == '\U{85}' || c == '\U{A0}' || c == '\U{1680}' || '\U{2000}' <= c <= '\U{200A}' ||
    c == '\U{2028}' || c == '\U{2029}' || c == '\U{202F}' || c == '\U{205F}' || c == '\U{3000}'
  }

  /** `\w`, restricted to ASCII: letters, digits and the underscore. */
  predicate IsWord(c: char) {
    'a' <= c <= 'z' || 'A' <= c <= 'Z' || '0' <= c <= '9' || c == '_'
  }

  /** The class `[^\w\s]`. */
  predicate IsOther(c: char) {
    !IsWord(c) && !IsSpace(c)
  }

  /** The character classes the sanitiser relies on: '_' is a word character, ' ' a space, and no character is both. */
  lemma ClassesDisjoint(c: char)
    ensures IsWord('_') && IsSpace(' ')
    ensures !(IsWord(c) && IsSpace(c))
    ensures IsOther(c) <==> !IsWord(c) && !IsSpace(c)
  {
  }

  /** The length of the run of p-characters at the front of s. */
  function RunLength(s: string, p: char -> bool): (n: nat)
    ensures n <= |s|
    ensures forall i :: 0 <= i < n ==> p(s[i])
    ensures n < |s| ==> !p(s[n])
  {
    if s == [] || !p(s[0]) then 0 else RunLength(s[1..], p) + 1
  }

  /**
   * re.sub(class + "+", [rep], s): left to right, each maximal run of
   * characters of the class is replaced by the single character rep and every
   * other character is copied.
   */
  function CollapseRuns(s: string, p: char -> bool, rep: char): (r: string)
    decreases |s|
    ensures |r| <= |s|
    ensures r == [] <==> s == []
  {
    if s == [] then []
    else if p(s[0]) then [rep] + CollapseRuns(s[RunLength(s, p)..], p, rep)
    else [s[0]] + CollapseRuns(s[1..], p, rep)
  }

  /** Every character of the result is rep or a character of s outside the class. */
  lemma {:induction false} CollapseRunsChars(s: string, p: char -> bool, rep: char)
    ensures forall i :: 0 <= i < |CollapseRuns(s, p, rep)| ==>
      CollapseRuns(s, p, rep)[i] == rep || (CollapseRuns(s, p, rep)[i] in s && !p(CollapseRuns(s, p, rep)[i]))
    decreases |s|
  {
    if s != [] {
      var r := CollapseRuns(s, p, rep);
      if p(s[0]) {
        var t := s[RunLength(s, p)..];
        CollapseRunsChars(t, p, rep);
        forall i | 0 <= i < |r| ensures r[i] == rep || (r[i] in s && !p(r[i])) {
          if i > 0 {
            assert r[i] == CollapseRuns(t, p, rep)[i - 1];
            assert forall c :: c in t ==> c in s;
          }
        }
      } else {
        CollapseRunsChars(s[1..], p, rep);
        forall i | 0 <= i < |r| ensures r[i] == rep || (r[i] in s && !p(r[i])) {
          if i > 0 {
            assert r[i] == CollapseRuns(s[1..], p, rep)[i - 1];
          }
        }
      }
    }
  }

  /** The first character of the result comes from the first character of s. */
  lemma CollapseRunsHead(s: string, p: char -> bool, rep: char)
    requires s != []
    ensures CollapseRuns(s, p, rep)[0] == if p(s[0]) then rep else s[0]
  {
  }

  /** When rep is itself in the class, no two adjacent characters of the result are in it. */
  lemma {:induction false} CollapseRunsSeparated(s: string, p: char -> bool, rep: char)
    requires p(rep)
    ensures forall i :: 0 <= i < |CollapseRuns(s, p, rep)| - 1 ==>
      !(p(CollapseRuns(s, p, rep)[i]) && p(CollapseRuns(s, p, rep)[i + 1]))
    decreases |s|
  {
    if s != [] {
      var r := CollapseRuns(s, p, rep);
      var t := if p(s[0]) then s[RunLength(s, p)..] else s[1..];
      assert r == [r[0]] + CollapseRuns(t, p, rep);
      CollapseRunsSeparated(t, p, rep);
      if p(s[0]) && t != [] {
        CollapseRunsHead(t, p, rep);
      }
      forall i | 0 <= i < |r| - 1 ensures !(p(r[i]) && p(r[i + 1])) {
        if i > 0 {
          assert r[i] == CollapseRuns(t, p, rep)[i - 1];
        }
      }
    }
  }

  /** A text in which every class character is rep, standing alone, is left as it is. */
  lemma {:induction false} CollapseRunsIdentity(s: string, p: char -> bool, rep: char)
    requires forall i :: 0 <= i < |s| && p(s[i]) ==> s[i] == rep && (i + 1 < |s| ==> !p(s[i + 1]))
    ensures CollapseRuns(s, p, rep) == s
    decreases |s|
  {
    if s != [] {
      if p(s[0]) {
        assert RunLength(s, p) == 1;
      }
      assert forall i :: 0 <= i < |s| - 1 ==> s[1..][i] == s[i + 1];
      CollapseRunsIdentity(s[1..], p, rep);
      assert s == [s[0]] + s[1..];
    }
  }

  /** One step of the scan: the run or the single character at the front of s, then the rest. */
  lemma CollapseRunsStep(s: string, p: char -> bool, rep: char, n: nat)
    requires s != [] && n == if p(s[0]) then RunLength(s, p) else 1
    ensures CollapseRuns(s, p, rep) == [if p(s[0]) then rep else s[0]] + CollapseRuns(s[n..], p, rep)
  {
  }

  /** The first step of the scan over a + b stays inside a when a ends outside the class. */
  lemma CollapseRunsStepAppend(a: string, b: string, p: char -> bool, rep: char, n: nat)
    requires a != [] && !p(a[|a| - 1]) && n == if p(a[0]) then RunLength(a, p) else 1
    ensures 0 < n <= |a|
    ensures CollapseRuns(a + b, p, rep) == [if p(a[0]) then rep else a[0]] + CollapseRuns(a[n..] + b, p, rep)
  {
    var s := a + b;
    if p(a[0]) {
      RunLengthPrefix(a, b, p);
    }
    assert s[0] == a[0];
    CollapseRunsStep(s, p, rep, n);
    assert s[n..] == a[n..] + b;
  }

  /** Collapsing splits at a boundary that no run crosses. */
  lemma {:induction false} CollapseRunsAppend(a: string, b: string, p: char -> bool, rep: char)
    requires a != [] && !p(a[|a| - 1])
    ensures CollapseRuns(a + b, p, rep) == CollapseRuns(a, p, rep) + CollapseRuns(b, p, rep)
    decreases |a|
  {
    var n := if p(a[0]) then RunLength(a, p) else 1;
    CollapseRunsStepAppend(a, b, p, rep, n);
    CollapseRunsStep(a, p, rep, n);
    var h, x, y := [if p(a[0]) then rep else a[0]], CollapseRuns(a[n..], p, rep), CollapseRuns(b, p, rep);
    if n < |a| {
      assert a[n..][|a[n..]| - 1] == a[|a| - 1];
      CollapseRunsAppend(a[n..], b, p, rep);
      AppendAssociative(h, x, y);
    } else {
      assert a[n..] == [] && a[n..] + b == b;
      assert h + x == h;
    }
  }

  /** A run that ends inside a is unaffected by what follows a. */
  lemma {:induction false} RunLengthPrefix(a: string, b: string, p: char -> bool)
    requires a != [] && !p(a[|a| - 1])
    ensures RunLength(a + b, p) == RunLength(a, p)
    decreases |a|
  {
    if |a| > 1 && p(a[0]) {
      assert (a + b)[1..] == a[1..] + b;
      RunLengthPrefix(a[1..], b, p);
    }
  }

  /** A run of class characters followed by the end or by a character outside the class is consumed whole. */
  lemma {:induction false} RunLengthRun(r: string, y: string, p: char -> bool)
    requires forall i :: 0 <= i < |r| ==> p(r[i])
    requires y == [] || !p(y[0])
    ensures RunLength(r + y, p) == |r|
    decreases |r|
  {
    if r == [] {
      assert r + y == y;
    } else {
      assert (r + y)[0] == r[0] && (r + y)[1..] == r[1..] + y;
      RunLengthRun(r[1..], y, p);
    }
  }

  /** A run at the front of the text becomes one rep. */
  lemma CollapseRunsFrontRun(r: string, y: string, p: char -> bool, rep: char)
    requires r != [] && forall i :: 0 <= i < |r| ==> p(r[i])
    requires y == [] || !p(y[0])
    ensures CollapseRuns(r + y, p, rep) == [rep] + CollapseRuns(y, p, rep)
  {
    var ry := r + y;
    RunLengthRun(r, y, p);
    assert ry[0] == r[0];
    CollapseRunsStep(ry, p, rep, |r|);
    assert ry[|r|..] == y;
  }

  /**
   * The `+` of the pattern: a whole run of class characters, bounded on both
   * sides by the ends of the text or by characters outside the class, becomes
   * the single character rep, whatever its length.
   */
  lemma CollapseRunsRun(x: string, r: string, y: string, p: char -> bool, rep: char)
    requires r != [] && forall i :: 0 <= i < |r| ==> p(r[i])
    requires x == [] || !p(x[|x| - 1])
    requires y == [] || !p(y[0])
    ensures CollapseRuns(x + (r + y), p, rep) == CollapseRuns(x, p, rep) + [rep] + CollapseRuns(y, p, rep)
  {
    CollapseRunsFrontRun(r, y, p, rep);
    CollapseRunsBehind(x, r + y, CollapseRuns(y, p, rep), p, rep);
  }

  /** Text ending outside the class, followed by text that collapses to a rep and then t. */
  lemma CollapseRunsBehind(x: string, ry: string, t: string, p: char -> bool, rep: char)
    requires x == [] || !p(x[|x| - 1])
    requires CollapseRuns(ry, p, rep) == [rep] + t
    ensures CollapseRuns(x + ry, p, rep) == CollapseRuns(x, p, rep) + [rep] + t
  {
    if x == [] {
      assert x + ry == ry;
    } else {
      CollapseRunsAppend(x, ry, p, rep);
      AppendAssociative(CollapseRuns(x, p, rep), [rep], t);
    }
  }

  /** Note.filename. */
  function Filename(title: string): string {
    CollapseRuns(CollapseRuns(title, IsOther, '_'), IsSpace, ' ')
  }

  /** A name already in sanitised shape: word characters and single spaces. */
  ghost predicate IsSanitised(name: string) {
    (forall i :: 0 <= i < |name| ==> IsWord(name[i]) || name[i] == ' ') &&
    (forall i :: 0 <= i < |name| - 1 ==> !(IsSpace(name[i]) && IsSpace(name[i + 1])))
  }

  /**
   * The sanitised name is made of word characters and ' ', never has two
   * whitespace characters side by side, is no longer than the title, and is
   * empty exactly when the title is.
   */
  lemma FilenameShape(title: string)
    ensures IsSanitised(Filename(title))
    ensures |Filename(title)| <= |title|
    ensures Filename(title) == [] <==> title == []
  {
    var s1 := CollapseRuns(title, IsOther, '_');
    var r := Filename(title);
    CollapseRunsChars(title, IsOther, '_');
    CollapseRunsChars(s1, IsSpace, ' ');
    CollapseRunsSeparated(s1, IsSpace, ' ');
    forall i | 0 <= i < |r| ensures IsWord(r[i]) || r[i] == ' ' {
      if r[i] != ' ' {
        var j :| 0 <= j < |s1| && s1[j] == r[i];
        assert s1[j] == '_' || !IsOther(s1[j]);
      }
    }
  }

  /** Sanitising removes every '.' and '/'. */
  lemma FilenameHasNoDotOrSlash(title: string)
    ensures '.' !in Filename(title) && '/' !in Filename(title)
  {
    FilenameShape(title);
  }

  /** Sanitising is idempotent. */
  lemma FilenameIdempotent(title: string)
    ensures Filename(Filename(title)) == Filename(title)
  {
    FilenameShape(title);
    SanitisedUnchanged(Filename(title));
  }

  /** Every character of w is a word character. */
  predicate AllWord(w: string) {
    forall i :: 0 <= i < |w| ==> IsWord(w[i])
  }

  /** Both passes leave a name in sanitised shape as it is. */
  lemma SanitisedUnchanged(s: string)
    requires IsSanitised(s)
    ensures CollapseRuns(s, IsOther, '_') == s && CollapseRuns(s, IsSpace, ' ') == s
  {
    CollapseRunsIdentity(s, IsOther, '_');
    CollapseRunsIdentity(s, IsSpace, ' ');
  }

  /** Sanitised shape is kept by concatenation unless two spaces meet at the seam. */
  lemma SanitisedAppend(a: string, b: string)
    requires IsSanitised(a) && IsSanitised(b)
    requires a != [] && b != [] ==> !(IsSpace(a[|a| - 1]) && IsSpace(b[0]))
    ensures IsSanitised(a + b)
  {
    var s := a + b;
    forall i | 0 <= i < |s| - 1 ensures !(IsSpace(s[i]) && IsSpace(s[i + 1])) {
      if i + 1 < |a| {
        assert s[i] == a[i] && s[i + 1] == a[i + 1];
      } else if i >= |a| {
        assert s[i] == b[i - |a|] && s[i + 1] == b[i + 1 - |a|];
      }
    }
  }

  /** A run of word characters is in sanitised shape. */
  lemma WordsSanitised(w: string)
    requires AllWord(w)
    ensures IsSanitised(w)
  {
    forall i | 0 <= i < |w| - 1 ensures !(IsSpace(w[i]) && IsSpace(w[i + 1])) {
      ClassesDisjoint(w[i]);
    }
  }

  /** The first pass on a title of the shape `<w1>: <w2> & <w3>!`. */
  lemma FirstPass(w1: string, w2: string, w3: string)
    requires w1 != [] && w2 != [] && w3 != [] && AllWord(w1) && AllWord(w2) && AllWord(w3)
    ensures CollapseRuns(w1 + ": " + w2 + " & " + w3 + "!", IsOther, '_') == w1 + "_ " + w2 + " _ " + w3 + "_"
  {
    WordsSanitised(w1); WordsSanitised(w2); WordsSanitised(w3);
    SanitisedUnchanged(w1); SanitisedUnchanged(w2); SanitisedUnchanged(w3);
    var p1 := w1 + ": ";
    var p2 := p1 + w2;
    var p3 := p2 + " & ";
    var p4 := p3 + w3;
    CollapseRunsAppend(w1, ": ", IsOther, '_');
    CollapseRunsAppend(p1, w2, IsOther, '_');
    CollapseRunsAppend(p2, " & ", IsOther, '_');
    CollapseRunsAppend(p3, w3, IsOther, '_');
    CollapseRunsAppend(p4, "!", IsOther, '_');
    OtherThenSpace(": ");
    SpaceOtherSpace(" & ");
    LoneOther("!");
  }
  /** A class character followed by a space: the character becomes '_'. */
  lemma OtherThenSpace(s: string)
    requires |s| == 2 && IsOther(s[0]) && s[1] == ' '
    ensures CollapseRuns(s, IsOther, '_') == "_ "
  {
    assert RunLength(s, IsOther) == 1;
  }

  lemma SpaceOtherSpace(s: string)
    requires s == " & "
    ensures CollapseRuns(s, IsOther, '_') == " _ "
  {
    assert !IsOther(s[0]);
    assert s[1..] == "& ";
    OtherThenSpace(s[1..]);
  }

  lemma LoneOther(s: string)
    requires s == "!"
    ensures CollapseRuns(s, IsOther, '_') == "_"
  {
    assert RunLength(s, IsOther) == 1;
  }

  /** The second pass leaves the first pass's result as it is. */
  lemma SecondPass(w1: string, w2: string, w3: string)
    requires w1 != [] && w2 != [] && w3 != [] && AllWord(w1) && AllWord(w2) && AllWord(w3)
    ensures CollapseRuns(w1 + "_ " + w2 + " _ " + w3 + "_", IsSpace, ' ') == w1 + "_ " + w2 + " _ " + w3 + "_"
  {
    WordsSanitised(w1); WordsSanitised(w2); WordsSanitised(w3);
    var u, v, x := "_ ", " _ ", "_";
    assert IsSanitised(u) && IsSanitised(v) && IsSanitised(x);
    ClassesDisjoint(w1[|w1| - 1]);
    ClassesDisjoint(w2[0]);
    ClassesDisjoint(w2[|w2| - 1]);
    ClassesDisjoint(w3[0]);
    ClassesDisjoint(w3[|w3| - 1]);
    var q1 := w1 + u;
    SanitisedAppend(w1, u);
    SanitisedAppend(q1, w2);
    var q2 := q1 + w2;
    SanitisedAppend(q2, v);
    var q3 := q2 + v;
    SanitisedAppend(q3, w3);
    var q4 := q3 + w3;
    SanitisedAppend(q4, x);
    SanitisedUnchanged(q4 + x);
  }

  /** The literal facts of the Groceries example, kept apart so that the example only chains lemmas. */
  lemma GroceriesParts(title: string, w1: string, w2: string, w3: string)
    requires title == "Groceries: Milk & Eggs!" && w1 == "Groceries" && w2 == "Milk" && w3 == "Eggs"
    ensures title == w1 + ": " + w2 + " & " + w3 + "!"
    ensures w1 + "_ " + w2 + " _ " + w3 + "_" == "Groceries_ Milk _ Eggs_"
    ensures w1 != [] && w2 != [] && w3 != [] && AllWord(w1) && AllWord(w2) && AllWord(w3)
  {
  }

  /** An example title: "Groceries: Milk & Eggs!" is sanitised to "Groceries_ Milk _ Eggs_". */
  lemma GroceriesExample()
    ensures Filename("Groceries: Milk & Eggs!") == "Groceries_ Milk _ Eggs_"
  {
    var title, w1, w2, w3 := "Groceries: Milk & Eggs!", "Groceries", "Milk", "Eggs";
    GroceriesParts(title, w1, w2, w3);
    FirstPass(w1, w2, w3);
    SecondPass(w1, w2, w3);
  }

  /** A run of other characters of any length between two words becomes a single '_'. */
  lemma RunBetweenWords(w1: string, r: string, w2: string)
    requires w1 != [] && w2 != [] && AllWord(w1) && AllWord(w2)
    requires r != [] && forall i :: 0 <= i < |r| ==> IsOther(r[i])
    ensures Filename(w1 + r + w2) == w1 + "_" + w2
  {
    WordsSanitised(w1);
    WordsSanitised(w2);
    SanitisedUnchanged(w1);
    SanitisedUnchanged(w2);
    CollapseRunsRun(w1, r, w2, IsOther, '_');
    AppendAssociative(w1, r, w2);
    var m := w1 + "_" + w2;
    assert m == w1 + ['_'] + w2;
    assert AllWord(m) by {
      forall i | 0 <= i < |m| ensures IsWord(m[i]) {
        if i < |w1| {
          assert m[i] == w1[i];
        } else if i > |w1| {
          assert m[i] == w2[i - |w1| - 1];
        }
      }
    }
    WordsSanitised(m);
    SanitisedUnchanged(m);
  }

  /** The literal facts of the two-character run example. */
  lemma RunExampleParts(w1: string, r: string, w2: string)
    requires w1 == "a" && r == "!?" && w2 == "b"
    ensures "a!?b" == w1 + r + w2 && "a_b" == w1 + "_" + w2
    ensures w1 != [] && w2 != [] && AllWord(w1) && AllWord(w2)
    ensures r != [] && forall i :: 0 <= i < |r| ==> IsOther(r[i])
  {
  }

  /** A run of two other characters in a title becomes one '_': "a!?b" is sanitised to "a_b". */
  lemma RunExample()
    ensures Filename("a!?b") == "a_b"
  {
    var w1, r, w2 := "a", "!?", "b";
    RunExampleParts(w1, r, w2);
    RunBetweenWords(w1, r, w2);
  }

  /** The two ValueErrors of PurePath.with_suffix. */
  datatype PathError = InvalidSuffix | EmptyName

  /** The index of the last '.' in name, if any. */
  function LastDot(name: string): (r: Option<nat>)
    ensures r.Some? ==> r.value < |name| && name[r.value] == '.' && '.' !in name[r.value + 1..]
    ensures r.None? ==> '.' !in name
  {
    if name == [] then None
    else if name[|name| - 1] == '.' then Some(|name| - 1)
    else
      var r := LastDot(name[..|name| - 1]);
      assert name == name[..|name| - 1] + [name[|name| - 1]];
      assert r.Some? ==> name[r.value + 1..] == name[..|name| - 1][r.value + 1..] + [name[|name| - 1]];
      r
  }

  /**
   * PurePath.suffix: from the last '.' on, unless that dot is first or last in
   * the name. A non-empty suffix is a proper tail of the name that starts
   * with its only '.' and has a character after it; the suffix is empty only
   * when no '.' strictly inside the name is the last one.
   */
  function Suffix(name: string): (r: string)
    ensures |r| <= |name|
    ensures r != [] ==> r[0] == '.' && name == name[..|name| - |r|] + r && 2 <= |r| < |name| && '.' !in r[1..]
    ensures r == [] ==> forall i :: 0 < i < |name| - 1 && name[i] == '.' ==> '.' in name[i + 1..]
  {
    match LastDot(name)
    case Some(i) =>
      if 0 < i < |name| - 1 then
        assert name[i..][1..] == name[i + 1..];
        name[i..]
      else
        assert forall k :: 0 < k < |name| - 1 && name[k] == '.' ==> name[i] in name[k + 1..] by {
          forall k | 0 < k < |name| - 1 && name[k] == '.' ensures name[i] in name[k + 1..] {
            if i != 0 {
              assert name[i] == name[k + 1..][i - k - 1];
            }
          }
        }
        []
    case None => []
  }

  /**
   * The suffixes with_suffix accepts: none containing '/', and either the
   * empty suffix or one that starts with '.' and is more than ".".
   */
  predicate ValidSuffix(suffix: string) {
    '/' !in suffix && (suffix == [] || (suffix[0] == '.' && suffix != "."))
  }

  /**
   * PurePath.with_suffix on a one-component path: an invalid suffix is refused
   * first, then an empty name; otherwise the old suffix, if any, is replaced
   * by the new one.
   */
  function WithSuffix(name: string, suffix: string): (r: Result<string, PathError>)
    ensures r == Err(InvalidSuffix) <==> !ValidSuffix(suffix)
    ensures r == Err(EmptyName) <==> ValidSuffix(suffix) && name == []
    ensures r.Ok? ==> EndsWith(r.value, suffix)
    ensures r.Ok? ==> r.value == name[..|name| - |Suffix(name)|] + suffix
  {
    if !ValidSuffix(suffix) then Err(InvalidSuffix)
    else if name == [] then Err(EmptyName)
    else Ok(name[..|name| - |Suffix(name)|] + suffix)
  }

  /** The suffix of archive names is one with_suffix accepts. */
  lemma BearnoteSuffixValid()
    ensures ValidSuffix(".bearnote")
  {
    var s := ".bearnote";
    assert s[0] == '.' && |s| == 9;
  }

  /** On a name without '.', with_suffix appends. */
  lemma WithSuffixAppends(name: string, suffix: string)
    requires ValidSuffix(suffix) && name != [] && '.' !in name
    ensures WithSuffix(name, suffix) == Ok(name + suffix)
  {
    assert name[..|name|] == name;
  }

  /**
   * with_suffix and suffix are partners: after replacing the suffix by a
   * well-formed one ('.', then at least one other character, and neither a
   * further '.' nor a '/'), the suffix of the new name is that one.
   */
  lemma SuffixOfWithSuffix(name: string, suffix: string)
    requires name != []
    requires |suffix| >= 2 && suffix[0] == '.' && '.' !in suffix[1..] && '/' !in suffix
    ensures WithSuffix(name, suffix).Ok? && Suffix(WithSuffix(name, suffix).value) == suffix
  {
    var stem := name[..|name| - |Suffix(name)|];
    var r := stem + suffix;
    assert stem != [] by {
      if Suffix(name) != [] {
        assert |Suffix(name)| < |name|;
      }
    }
    assert r[|stem|] == '.';
    assert r[|stem| + 1..] == suffix[1..];
    LastDotIs(r, |stem|);
  }

  lemma LastDotIs(name: string, i: nat)
    requires i < |name| && name[i] == '.' && '.' !in name[i + 1..]
    ensures LastDot(name) == Some(i)
    decreases |name|
  {
    if i < |name| - 1 {
      var n, t := |name|, name[i + 1..];
      var p := name[..n - 1];
      assert name[n - 1] == t[n - 2 - i];
      assert p[i + 1..] == t[..n - 2 - i];
      NotInPrefix(t, n - 2 - i, '.');
      LastDotIs(p, i);
    }
  }

  lemma NotInPrefix(t: string, k: nat, c: char)
    requires k <= |t| && c !in t
    ensures c !in t[..k]
  {
    assert forall j :: 0 <= j < k ==> t[..k][j] == t[j];
  }

  /** Note.full_filename. */
  function FullFilename(title: string): Result<string, PathError> {
    WithSuffix(Filename(title), ".bearnote")
  }

  /**
   * A non-empty title gives the sanitised name followed by ".bearnote"; an
   * empty title makes with_suffix fail.
   */
  lemma FullFilenameIs(title: string)
    ensures title == [] ==> FullFilename(title) == Err(EmptyName)
    ensures title != [] ==> FullFilename(title) == Ok(Filename(title) + ".bearnote")
  {
    FilenameShape(title);
    BearnoteSuffixValid();
    if title != [] {
      FilenameHasNoDotOrSlash(title);
      WithSuffixAppends(Filename(title), ".bearnote");
    }
  }

  /** An archive name ends in ".bearnote" and does not start with '.' (so "*.bearnote" matches it). */
  lemma FullFilenameGlobbable(title: string)
    requires FullFilename(title).Ok?
    ensures EndsWith(FullFilename(title).value, ".bearnote")
    ensures FullFilename(title).value[0] != '.'
  {
    FullFilenameIs(title);
    FilenameHasNoDotOrSlash(title);
    assert FullFilename(title).value[0] == Filename(title)[0];
  }
}
