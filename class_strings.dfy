/**
 * The class-string parser of `src/index.js` (`toClassObj`) and the string
 * helpers it relies on: `split` on one character and `trim`.
 */
module ClassStrings {
  import opened JsValues

  /** `s.split(sep)` for a one-character separator: always at least one part, none containing `sep`. */
  function Split(s: string, sep: char): (parts: seq<string>)
    ensures |parts| >= 1
    ensures forall i :: 0 <= i < |parts| ==> sep !in parts[i]
  {
    if s == [] then [""]
    else
      var rest := Split(s[1..], sep);
      if s[0] == sep then [""] + rest else [[s[0]] + rest[0]] + rest[1..]
  }

  /** `parts.join(sep)`. */
  function Join(parts: seq<string>, sep: char): string
    requires |parts| >= 1
  {
    if |parts| == 1 then parts[0] else parts[0] + [sep] + Join(parts[1..], sep)
  }

  /** Prefixing the first part prefixes the joined string. */
  lemma JoinPrefixFirst(c: char, parts: seq<string>, sep: char)
    requires |parts| >= 1
    ensures Join([[c] + parts[0]] + parts[1..], sep) == [c] + Join(parts, sep)
  {
    var ps := [[c] + parts[0]] + parts[1..];
    if |parts| > 1 {
      assert ps[1..] == parts[1..];
      assert Join(ps, sep) == ([c] + parts[0]) + [sep] + Join(parts[1..], sep);
    }
  }

  /** Splitting loses nothing: joining the parts gives the string back. */
  lemma {:induction false} JoinSplit(s: string, sep: char)
    ensures Join(Split(s, sep), sep) == s
  {
    if s != [] {
      var rest := Split(s[1..], sep);
      JoinSplit(s[1..], sep);
      if s[0] == sep {
        var parts := [""] + rest;
        assert Split(s, sep) == parts;
        assert parts[1..] == rest;
        assert Join(parts, sep) == [sep] + Join(rest, sep);
      } else {
        assert Split(s, sep) == [[s[0]] + rest[0]] + rest[1..];
        JoinPrefixFirst(s[0], rest, sep);
      }
      assert [s[0]] + s[1..] == s;
    }
  }

  /** ECMAScript white space and line terminators, which `trim` strips. */
  const WhiteSpace: set<char> := {
    '\t', '\n', '\U{000B}', '\U{000C}', '\r', ' ', '\U{00A0}', '\U{1680}',
    '\U{2000}', '\U{2001}', '\U{2002}', '\U{2003}', '\U{2004}', '\U{2005}', '\U{2006}', '\U{2007}',
    '\U{2008}', '\U{2009}', '\U{200A}', '\U{2028}', '\U{2029}', '\U{202F}', '\U{205F}', '\U{3000}', '\U{FEFF}'}

  /** `s.trimStart()`: the white space at the front removed. */
  function TrimStart(s: string): (t: string)
    ensures t == [] || t[0] !in WhiteSpace
    ensures forall c :: c in t ==> c in s
    ensures |t| <= |s|
  {
    if s != [] && s[0] in WhiteSpace then TrimStart(s[1..]) else s
  }

  /** `s.trimEnd()`: the white space at the back removed. */
  function TrimEnd(s: string): (t: string)
    ensures t == [] || t[|t| - 1] !in WhiteSpace
    ensures forall c :: c in t ==> c in s
    ensures |t| <= |s| && t == s[..|t|]
  {
    if s != [] && s[|s| - 1] in WhiteSpace then TrimEnd(s[..|s| - 1]) else s
  }

  /** `s.trim()`: neither end is white space, and nothing new appears. */
  function Trim(s: string): (t: string)
    ensures t == [] || (t[0] !in WhiteSpace && t[|t| - 1] !in WhiteSpace)
    ensures forall c :: c in t ==> c in s
  {
    var u := TrimStart(s);
    var t := TrimEnd(u);
    assert t != [] ==> t[0] == u[0];
    t
  }

  /** `trimStart` removes exactly a prefix of white space and keeps the rest as it is. */
  lemma {:induction false} TrimStartRemovesSpace(s: string)
    ensures TrimStart(s) == s[|s| - |TrimStart(s)|..]
    ensures forall j :: 0 <= j < |s| - |TrimStart(s)| ==> s[j] in WhiteSpace
  {
    if s != [] && s[0] in WhiteSpace {
      TrimStartRemovesSpace(s[1..]);
      forall j | 1 <= j < |s| - |TrimStart(s)| ensures s[j] in WhiteSpace {
        assert s[j] == s[1..][j - 1];
      }
    }
  }

  /** `trimEnd` removes exactly a suffix of white space and keeps the rest as it is. */
  lemma {:induction false} TrimEndRemovesSpace(s: string)
    ensures forall j :: |TrimEnd(s)| <= j < |s| ==> s[j] in WhiteSpace
  {
    if s != [] && s[|s| - 1] in WhiteSpace {
      TrimEndRemovesSpace(s[..|s| - 1]);
    }
  }

  /**
   * `trim` keeps the slice of `s` that starts after its leading white space
   * and has only white space after it.
   */
  lemma TrimRemovesSpace(s: string)
    ensures var a := |s| - |TrimStart(s)|;
            && a + |Trim(s)| <= |s| && Trim(s) == s[a..a + |Trim(s)|]
            && (forall j :: 0 <= j < a ==> s[j] in WhiteSpace)
            && (forall j :: a + |Trim(s)| <= j < |s| ==> s[j] in WhiteSpace)
  {
    var u := TrimStart(s);
    TrimStartRemovesSpace(s);
    TrimEndRemovesSpace(u);
    var a := |s| - |u|;
    forall j | a + |Trim(s)| <= j < |s| ensures s[j] in WhiteSpace {
      assert s[j] == u[j - a];
    }
  }

  /** Trimming a trimmed string changes nothing. */
  lemma TrimIdempotent(s: string)
    ensures Trim(Trim(s)) == Trim(s)
  {
    var t := Trim(s);
    assert TrimStart(t) == t;
    assert TrimEnd(t) == t;
  }

  /** The non-empty trimmed parts, as a set. */
  function ClassTokens(parts: seq<string>): set<string> {
    if parts == [] then {}
    else
      var last := Trim(parts[|parts| - 1]);
      ClassTokens(parts[..|parts| - 1]) + (if last != "" then {last} else {})
  }

  /** The tokens of one more part. */
  lemma ClassTokensSnoc(parts: seq<string>, i: nat)
    requires i < |parts|
    ensures ClassTokens(parts[..i + 1]) == ClassTokens(parts[..i]) + (if Trim(parts[i]) != "" then {Trim(parts[i])} else {})
  {
    assert parts[..i + 1][..i] == parts[..i];
    assert parts[..i + 1][i] == parts[i];
  }

  /** Every non-empty trimmed part is a token. */
  lemma {:induction false} ClassTokensComplete(parts: seq<string>)
    ensures forall i :: 0 <= i < |parts| && Trim(parts[i]) != "" ==> Trim(parts[i]) in ClassTokens(parts)
  {
    if parts != [] {
      var n := |parts| - 1;
      var init, last := parts[..n], Trim(parts[n]);
      ClassTokensComplete(init);
      assert ClassTokens(parts) == ClassTokens(init) + (if last != "" then {last} else {});
      forall i | 0 <= i < |parts| && Trim(parts[i]) != ""
        ensures Trim(parts[i]) in ClassTokens(parts)
      {
        if i < n {
          assert init[i] == parts[i];
        }
      }
    }
  }

  /** `c` is the trim of one of the parts. */
  predicate TrimOfSomePart(parts: seq<string>, c: string) {
    exists i :: 0 <= i < |parts| && Trim(parts[i]) == c
  }

  /** Every token is the trim of some part. */
  lemma {:induction false} ClassTokensSound(parts: seq<string>)
    ensures forall c :: c in ClassTokens(parts) ==> TrimOfSomePart(parts, c)
  {
    if parts != [] {
      var n := |parts| - 1;
      var init := parts[..n];
      ClassTokensSound(init);
      assert ClassTokens(parts) == ClassTokens(init) + (if Trim(parts[n]) != "" then {Trim(parts[n])} else {});
      forall c | c in ClassTokens(parts)
        ensures TrimOfSomePart(parts, c)
      {
        if c in ClassTokens(init) {
          var i :| 0 <= i < |init| && Trim(init[i]) == c;
          assert init[i] == parts[i];
        } else {
          assert Trim(parts[n]) == c;
        }
      }
    }
  }

  /** Tokens of parts free of `sep` are non-empty, free of `sep` and already trimmed. */
  lemma {:induction false} ClassTokensClean(parts: seq<string>, sep: char)
    requires forall i :: 0 <= i < |parts| ==> sep !in parts[i]
    ensures forall c :: c in ClassTokens(parts) ==> c != "" && sep !in c && Trim(c) == c
  {
    if parts != [] {
      var n := |parts| - 1;
      var init, last := parts[..n], Trim(parts[n]);
      forall i | 0 <= i < |init| ensures sep !in init[i] {
        assert init[i] == parts[i];
      }
      ClassTokensClean(init, sep);
      assert ClassTokens(parts) == ClassTokens(init) + (if last != "" then {last} else {});
      TrimIdempotent(parts[n]);
    }
  }

  /** The class names of a class string: the non-empty trimmed parts between spaces. */
  function ClassNames(s: string): set<string> {
    ClassTokens(Split(s, ' '))
  }

  /** Every class name is non-empty, free of spaces and already trimmed, and every non-empty trimmed part between spaces is one. */
  lemma ClassNamesAreTokens(s: string)
    ensures forall c :: c in ClassNames(s) ==> c != "" && ' ' !in c && Trim(c) == c
    ensures forall c :: c in ClassNames(s) ==> TrimOfSomePart(Split(s, ' '), c)
    ensures forall i :: 0 <= i < |Split(s, ' ')| && Trim(Split(s, ' ')[i]) != "" ==> Trim(Split(s, ' ')[i]) in ClassNames(s)
  {
    var parts := Split(s, ' ');
    ClassTokensClean(parts, ' ');
    ClassTokensSound(parts);
    ClassTokensComplete(parts);
  }

  /** The tokens are exactly the non-empty trims of the parts. */
  lemma ClassTokensExact(parts: seq<string>)
    ensures ClassTokens(parts) == set i | 0 <= i < |parts| && Trim(parts[i]) != "" :: Trim(parts[i])
  {
    ClassTokensSound(parts);
    ClassTokensComplete(parts);
  }

  /** The class names of a string are exactly the non-empty trims of its parts between spaces. */
  lemma ClassNamesExact(s: string)
    ensures ClassNames(s) == set i | 0 <= i < |Split(s, ' ')| && Trim(Split(s, ' ')[i]) != "" :: Trim(Split(s, ' ')[i])
  {
    ClassTokensExact(Split(s, ' '));
  }

  /** The class string `toClassObj` splits: the value itself, or "" for a falsy value. */
  function ClassString(klass: JsValue): string
    requires !Truthy(klass) || klass.Str?
  {
    if Truthy(klass) then klass.s else ""
  }

  /**
   * `toClassObj(klass)`: the set of class names of `klass || ""`.  A truthy
   * value that is not a string has no `split` and throws.
   */
  method ToClassObj(klass: JsValue) returns (res: set<string>)
    requires !Truthy(klass) || klass.Str?
    ensures res == ClassNames(ClassString(klass))
  {
    var list := Split(ClassString(klass), ' ');
    res := {};
    var i := 0;
    while i < |list|
      invariant 0 <= i <= |list|
      invariant res == ClassTokens(list[..i])
    {
      ClassTokensSnoc(list, i);
      var c := Trim(list[i]);
      if c != "" {
        res := res + {c};
      }
      i := i + 1;
    }
    assert list[..i] == list;
  }

  /** The object `toClassObj` returns: each class name mapped to `true`. */
  function ClassObj(names: set<string>): (o: JsValue)
    ensures o.Obj? && o.fields.Keys == names
  {
    Obj(map c | c in names :: Bool(true), true)
  }
}
