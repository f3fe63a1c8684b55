/** Module names with wildcards, and the regular expressions they are translated to. */
module Wildcards {
  import opened MachineInts

  datatype Option<T> = None | Some(value: T)

  function ToLower(c: char): char {
    if 'A' <= c <= 'Z' then (c as int + 32) as char else c
  }

  function Lower(s: string): (r: string)
    ensures |r| == |s| && forall i :: 0 <= i < |s| ==> r[i] == ToLower(s[i])
  {
    seq(|s|, i requires 0 <= i < |s| => ToLower(s[i]))
  }

  /** A capital becomes the small letter with the same place in the alphabet; no capital remains, and nothing else changes. */
  lemma LowerExact(s: string)
    ensures forall i :: 0 <= i < |s| ==> !('A' <= Lower(s)[i] <= 'Z')
    ensures forall i :: 0 <= i < |s| ==>
              if 'A' <= s[i] <= 'Z' then Lower(s)[i] as int - 'a' as int == s[i] as int - 'A' as int else Lower(s)[i] == s[i]
  {
  }

  /** Texts that differ only in case have the same lower-case form, and so the same translation. */
  lemma CaseIrrelevant(s: string, t: string)
    requires |s| == |t|
    requires forall i :: 0 <= i < |s| ==> s[i] == t[i] || ('A' <= s[i] <= 'Z' && t[i] as int - 'a' as int == s[i] as int - 'A' as int)
                                                       || ('A' <= t[i] <= 'Z' && s[i] as int - 'a' as int == t[i] as int - 'A' as int)
    ensures Lower(s) == Lower(t) && Translated(Lower(s)) == Translated(Lower(t))
  {
    assert forall i :: 0 <= i < |s| ==> ToLower(s[i]) == ToLower(t[i]);
  }

  /** The regular expression for one character of a name. */
  function Escaped(c: char): string {
    if c == '*' then ".*" else if c in "?.\\+^$|()[]{}" then ['\\', c] else [c]
  }

  function Translated(name: string): string {
    if name == "" then "" else Escaped(name[0]) + Translated(name[1..])
  }

  /** A name without special characters is its own pattern. */
  lemma {:induction false} TranslatedPlain(name: string)
    requires forall c :: c in name ==> c !in "*?.\\+^$|()[]{}"
    ensures Translated(name) == name
  {
    if name != "" {
      TranslatedPlain(name[1..]);
      assert name[0] in name && name == [name[0]] + name[1..];
    }
  }

  method Translate(name: string) returns (pattern: string)
    ensures pattern == Translated(name)
  {
    hide Escaped;
    pattern := "";
    for i := 0 to |name|
      invariant pattern + Translated(name[i..]) == Translated(name)
    {
      ghost var before := pattern;
      pattern := Append(pattern, name[i]);
      TranslatedStep(name[i..]);
      assert name[i..][1..] == name[i + 1..];
      assert before + (Escaped(name[i]) + Translated(name[i + 1..])) == pattern + Translated(name[i + 1..]);
    }
  }

  lemma TranslatedStep(name: string)
    requires name != ""
    ensures Translated(name) == Escaped(name[0]) + Translated(name[1..])
  {
  }

  method Append(pattern0: string, c: char) returns (pattern: string)
    ensures pattern == pattern0 + Escaped(c)
  {
    pattern := pattern0;
    match c {
      case '*' => pattern := pattern + ".*";
      case '?' | '.' | '\\' | '+' | '^' | '$' | '|' | '(' | ')' | '[' | ']' | '{' | '}' =>
        pattern := pattern + "\\";
        pattern := pattern + [c];
        assert "\\" + [c] == ['\\', c];
      case _ => pattern := pattern + [c];
    }
  }

  // Section 15.10.1 of ECMA-262 (3rd edition), for patterns that are one alternative without groups, classes,
  // assertions and counted or lazy quantifiers.

  datatype Atom = AnyChar | Literal(c: char)

  datatype Term = Term(atom: Atom, star: bool)

  predicate IsSyntax(c: char) {
    c in "^$\\.*+?()[]{}|"
  }

  /** Letters, digits and the underscore have meanings of their own behind a backslash. */
  predicate IsWordChar(c: char) {
    'a' <= c <= 'z' || 'A' <= c <= 'Z' || '0' <= c <= '9' || c == '_'
  }

  /** Reads an atom off the front of a pattern; the second part is the rest. */
  function ReadAtom(p: string): (r: Option<(Atom, string)>)
    requires p != ""
    ensures r.Some? ==> |r.value.1| < |p|
  {
    if p[0] == '.' then Some((AnyChar, p[1..]))
    else if p[0] == '\\' then (if |p| > 1 && !IsWordChar(p[1]) then Some((Literal(p[1]), p[2..])) else None)
    else if IsSyntax(p[0]) then None
    else Some((Literal(p[0]), p[1..]))
  }

  predicate StartsWith(p: string, c: char) {
    p != "" && p[0] == c
  }

  function ParsePattern(p: string): Option<seq<Term>>
    decreases |p|
  {
    if p == "" then Some([])
    else match ReadAtom(p)
      case None => None
      case Some((atom, rest)) =>
        var star := StartsWith(rest, '*');
        var tail := if star then rest[1..] else rest;
        if star && StartsWith(tail, '?') then None
        else match ParsePattern(tail)
          case None => None
          case Some(terms) => Some([Term(atom, star)] + terms)
  }

  /** What each character of a name stands for. */
  function Terms(name: string): seq<Term> {
    if name == "" then []
    else [if name[0] == '*' then Term(AnyChar, true) else Term(Literal(name[0]), false)] + Terms(name[1..])
  }

  /** A translated name never begins with a quantifier. */
  lemma NoQuantifierFirst(name: string)
    ensures !StartsWith(Translated(name), '*') && !StartsWith(Translated(name), '?')
  {
  }

  /** Read back by the grammar of regular expressions, the translation of a name is the list of what its characters stand for. */
  lemma {:induction false} TranslationParses(name: string)
    ensures ParsePattern(Translated(name)) == Some(Terms(name))
  {
    if name != "" {
      var c, rest := name[0], Translated(name[1..]);
      TranslationParses(name[1..]);
      NoQuantifierFirst(name[1..]);
      var p := Escaped(c) + rest;
      if c == '*' {
        assert p[1..] == "*" + rest && p[1..][1..] == rest;
      } else if c in "?.\\+^$|()[]{}" {
        assert p[2..] == rest;
      } else {
        assert p[1..] == rest;
      }
    }
  }

  predicate IsLineTerminator(c: char) {
    c == '\n' || c == '\r' || c == '\U{2028}' || c == '\U{2029}'
  }

  predicate AtomMatches(a: Atom, c: char) {
    match a
    case AnyChar => !IsLineTerminator(c)
    case Literal(d) => c == d
  }

  /** The whole of `s` matches the terms, one after the other. */
  ghost predicate Matches(terms: seq<Term>, s: string)
    decreases |terms|
  {
    if terms == [] then s == ""
    else if terms[0].star then exists k :: Consumed(terms[0].atom, s, k) && Matches(terms[1..], s[k..])
    else s != "" && AtomMatches(terms[0].atom, s[0]) && Matches(terms[1..], s[1..])
  }

  ghost predicate Consumed(a: Atom, s: string, k: int) {
    0 <= k <= |s| && forall i :: 0 <= i < k ==> AtomMatches(a, s[i])
  }

  /** The meaning of a name with wildcards: a star stands for any characters, all others for themselves. */
  ghost predicate GlobMatches(name: string, s: string)
    decreases |name|
  {
    if name == "" then s == ""
    else if name[0] == '*' then exists k | 0 <= k <= |s| :: GlobMatches(name[1..], s[k..])
    else s != "" && s[0] == name[0] && GlobMatches(name[1..], s[1..])
  }

  lemma {:induction false} MatchesMeansGlob(name: string, s: string)
    requires OneLine(s)
    ensures Matches(Terms(name), s) <==> GlobMatches(name, s)
    decreases |name|
  {
    if name != "" {
      assert Terms(name)[1..] == Terms(name[1..]);
      if name[0] == '*' {
        forall k | 0 <= k <= |s| ensures Matches(Terms(name[1..]), s[k..]) <==> GlobMatches(name[1..], s[k..]) {
          MatchesMeansGlob(name[1..], s[k..]);
        }
        assert forall k :: 0 <= k <= |s| ==> Consumed(AnyChar, s, k);
      } else if s != "" {
        MatchesMeansGlob(name[1..], s[1..]);
      }
    }
  }

  /** A name without a star matches itself only. */
  lemma {:induction false} GlobLiteral(name: string, s: string)
    requires '*' !in name
    ensures GlobMatches(name, s) <==> s == name
    decreases |name|
  {
    if name != "" && s != "" {
      GlobLiteral(name[1..], s[1..]);
      assert name == [name[0]] + name[1..] && s == [s[0]] + s[1..];
    }
  }

  /** The text is a match of `a`, then anything from `i` to `j`, then a match of `b`. */
  ghost predicate Parted(a: string, b: string, s: string, i: int, j: int) {
    0 <= i <= j <= |s| && GlobMatches(a, s[..i]) && GlobMatches(b, s[j..])
  }

  /** A star matches whatever stands between a match of what is before it and a match of what is behind it. */
  lemma {:induction false} GlobStar(a: string, b: string, s: string)
    ensures GlobMatches(a + "*" + b, s) <==> exists i, j :: Parted(a, b, s, i, j)
    decreases |a|
  {
    var name := a + "*" + b;
    if a == "" {
      assert name[0] == '*' && name[1..] == b;
      if k :| 0 <= k <= |s| && GlobMatches(b, s[k..]) { assert Parted(a, b, s, 0, k); }
    } else {
      assert name[1..] == a[1..] + "*" + b && name[0] == a[0];
      forall k | 0 <= k <= |s| ensures GlobMatches(name[1..], s[k..]) <==> exists i, j :: Parted(a[1..], b, s[k..], i, j) {
        GlobStar(a[1..], b, s[k..]);
      }
      if a[0] == '*' {
        StarParts(a, b, s);
      } else {
        LetterParts(a, b, s);
      }
    }
  }

  lemma StarParts(a: string, b: string, s: string)
    requires a != "" && a[0] == '*'
    ensures (exists i, j :: Parted(a, b, s, i, j)) <==> exists k, i, j :: 0 <= k <= |s| && Parted(a[1..], b, s[k..], i, j)
  {
    if i, j :| Parted(a, b, s, i, j) {
      var k :| 0 <= k <= |s[..i]| && GlobMatches(a[1..], s[..i][k..]);
      assert s[k..][..i - k] == s[..i][k..] && s[k..][j - k..] == s[j..];
      assert Parted(a[1..], b, s[k..], i - k, j - k);
    }
    if k, i, j :| 0 <= k <= |s| && Parted(a[1..], b, s[k..], i, j) {
      assert s[..k + i][k..] == s[k..][..i] && s[k + j..] == s[k..][j..];
      assert Parted(a, b, s, k + i, k + j);
    }
  }

  lemma LetterParts(a: string, b: string, s: string)
    requires a != "" && a[0] != '*'
    ensures (exists i, j :: Parted(a, b, s, i, j)) <==> s != "" && s[0] == a[0] && exists i, j :: Parted(a[1..], b, s[1..], i, j)
  {
    if i, j :| Parted(a, b, s, i, j) {
      assert s[..i] != "";
      assert s[1..][..i - 1] == s[..i][1..] && s[1..][j - 1..] == s[j..];
      assert Parted(a[1..], b, s[1..], i - 1, j - 1);
    }
    if s != "" && s[0] == a[0] {
      if i, j :| Parted(a[1..], b, s[1..], i, j) {
        assert s[..i + 1][1..] == s[1..][..i] && s[j + 1..] == s[1..][j..];
        assert Parted(a, b, s, i + 1, j + 1);
      }
    }
  }

  /** What is left out of consideration in the modules that match. */
  datatype Blacklist = Blacklist(pattern: string, moduleName: string, ignoreMemoryLeak: bool, ignoreLock: bool)

  /** The position of the first `c`, or the length when there is none. */
  function Find(s: string, c: char): (i: nat)
    ensures i <= |s| && (i < |s| ==> s[i] == c) && c !in s[..i]
  {
    if s == "" then 0 else if s[0] == c then 0 else assert s == [s[0]] + s[1..]; 1 + Find(s[1..], c)
  }

  /** At most `count` characters from position `pos` on; as a 64-bit number a negative count is a huge one. */
  function Substring(s: string, pos: nat, count: int): string
    requires pos <= |s| && -TWO_64 < count < TWO_64
  {
    var n := if count < 0 then count + TWO_64 else count;
    if pos + n <= |s| then s[pos..pos + n] else s[pos..]
  }

  /** The text between the first opening brace and the first closing one behind it, or the whole rest if that one comes too early. */
  function OptionsOf(text: string): string
    requires '{' in text && '}' in text
  {
    var open, close := Find(text, '{'), Find(text, '}');
    if close < open then text[open + 1..] else text[open + 1..close]
  }

  /** The options are the characters behind the first opening brace, and before the first closing one unless that comes earlier. */
  lemma OptionsExact(text: string, c: char)
    requires '{' in text && '}' in text
    ensures var open, close := Find(text, '{'), Find(text, '}');
            && (c in OptionsOf(text) <==> exists k :: open < k < |text| && text[k] == c && (close < open || k < close))
            && (OptionsOf(text) == "" <==> close == open + 1 || (close < open && open + 1 == |text|))
  {
    hide Find;
    Finds(text, '{');
    Finds(text, '}');
    var open, close := Find(text, '{'), Find(text, '}');
    InPart(text, open + 1, if close < open then |text| else close, c);
    assert text[open + 1..] == text[open + 1..|text|];
  }

  lemma InPart(s: string, i: nat, j: nat, c: char)
    requires i <= j <= |s|
    ensures c in s[i..j] <==> exists k :: i <= k < j && s[k] == c
  {
    if k :| i <= k < j && s[k] == c { assert s[i..j][k - i] == c; }
  }

  /** A count that is negative wraps around and reaches to the end. */
  lemma OptionsBetween(text: string)
    requires |text| < TWO_64 && '{' in text && '}' in text
    ensures var open: int, close: int := Find(text, '{'), Find(text, '}');
            open < |text| && Substring(text, open + 1, close - open - 1) == OptionsOf(text)
  {
    hide Find, Substring;
    Finds(text, '{');
    Finds(text, '}');
    SubstringBetween(text, Find(text, '{'), Find(text, '}'));
  }

  lemma SubstringBetween(text: string, open: int, close: int)
    requires 0 <= open < |text| < TWO_64 && 0 <= close < |text| && open != close
    ensures Substring(text, open + 1, close - open - 1) == if close < open then text[open + 1..] else text[open + 1..close]
  {
  }

  lemma Finds(s: string, c: char)
    ensures Find(s, c) < |s| <==> c in s
  {
    assert Find(s, c) == |s| ==> s == s[..Find(s, c)];
  }

  /** As a regular expression the pattern matches exactly the names, free of line terminators, that the wildcards match. */
  ghost predicate Means(pattern: string, name: string) {
    var parsed := ParsePattern(pattern);
    parsed.Some? && forall s | OneLine(s) :: Matches(parsed.value, s) <==> GlobMatches(name, s)
  }

  ghost predicate OneLine(s: string) {
    forall i :: 0 <= i < |s| ==> !IsLineTerminator(s[i])
  }

  /** The translation preserves the meaning of a name. */
  lemma TranslationMeans(name: string)
    ensures Means(Translated(name), name)
  {
    TranslationParses(name);
    forall s | OneLine(s) ensures Matches(Terms(name), s) <==> GlobMatches(name, s) {
      MatchesMeansGlob(name, s);
    }
  }

  /** Splits a name from the options in braces behind it and translates it. Fails when a brace is missing or nothing is between them. */
  method ParseToBlacklistInfo(text: string) returns (r: Option<Blacklist>)
    requires |text| < TWO_64
    ensures r == None <==> ('{' in text) != ('}' in text) || ('{' in text && '}' in text && OptionsOf(text) == "")
    ensures r.Some? ==> r.value.moduleName == (if '{' in text then Lower(text)[..Find(text, '{')] else Lower(text))
    ensures r.Some? ==> r.value.ignoreLock == ('{' !in text || 'l' in OptionsOf(text)) && r.value.ignoreMemoryLeak == ('{' !in text || 'm' in OptionsOf(text))
    ensures r.Some? ==> Means(r.value.pattern, r.value.moduleName) && r.value.pattern == Translated(r.value.moduleName)
    ensures r.Some? ==> var name := r.value.moduleName;
              && |name| <= |text| && '{' !in text[..|name|] && (|name| < |text| ==> text[|name|] == '{')
              && (forall i :: 0 <= i < |name| ==> !('A' <= name[i] <= 'Z'))
              && forall i :: 0 <= i < |name| ==>
                   if 'A' <= text[i] <= 'Z' then name[i] as int - 'a' as int == text[i] as int - 'A' as int else name[i] == text[i]
  {
    hide Means, OptionsOf, Substring, Lower, Find;
    var ignoreMemoryLeak, ignoreLock := false, false;
    var moduleName := Lower(text);
    LowerExact(text);
    var open: int := Find(text, '{');
    Finds(text, '{');
    Finds(text, '}');
    if open != |text| {
      var close: int := Find(text, '}');
      if close == |text| { return None; }
      OptionsBetween(text);
      var options := Substring(text, open + 1, close - open - 1);
      if options == "" { return None; }
      if 'l' in options { ignoreLock := true; }
      if 'm' in options { ignoreMemoryLeak := true; }
      moduleName := moduleName[..open];
    } else {
      var close := Find(text, '}');
      if close != |text| { return None; }
      ignoreMemoryLeak, ignoreLock := true, true;
    }
    var pattern := Translate(moduleName);
    TranslationMeans(moduleName);
    return Some(Blacklist(pattern, moduleName, ignoreMemoryLeak, ignoreLock));
  }
}
