/** String operations of the JavaScript runtime that the scene pipeline relies on,
    restricted to what the pipeline uses: `split` on one character, global
    replacement of one character, `\s+` runs, ASCII lower-casing, `endsWith`,
    and the order `localeCompare` is taken to be. */
module Text {

  /** The characters ECMAScript counts as white space or line terminators: the
      class `\s` of a regular expression and the characters `parseInt` skips. */
  predicate IsWhitespace(c: char) {
    || c == '\t' || c == '\n' || c == '\U{B}' || c == '\U{C}' || c == '\r' || c == ' '
    || c == '\U{A0}' || c == '\U{1680}' || ('\U{2000}' <= c <= '\U{200A}')
    || c == '\U{2028}' || c == '\U{2029}' || c == '\U{202F}' || c == '\U{205F}'
    || c == '\U{3000}' || c == '\U{FEFF}'
  }

  predicate AllWhitespace(s: string) {
    forall i :: 0 <= i < |s| ==> IsWhitespace(s[i])
  }

  predicate NoWhitespace(s: string) {
    forall i :: 0 <= i < |s| ==> !IsWhitespace(s[i])
  }

  predicate NoUpperAscii(s: string) {
    forall i :: 0 <= i < |s| ==> !IsUpperAscii(s[i])
  }

  predicate IsUpperAscii(c: char) {
    'A' <= c <= 'Z'
  }

  /** `toLowerCase` on one character, for the ASCII letters only. */
  function LowerAscii(c: char): (r: char)
    ensures !IsUpperAscii(r)
    ensures IsWhitespace(r) <==> IsWhitespace(c)
  {
    if IsUpperAscii(c) then (c as int + 32) as char else c
  }

  function ToLowerAscii(s: string): (r: string)
    ensures |r| == |s|
    ensures forall i :: 0 <= i < |s| ==> r[i] == LowerAscii(s[i])
  {
    seq(|s|, i requires 0 <= i < |s| => LowerAscii(s[i]))
  }

  /** `s.replace(/from/g, to)` for a single-character pattern. */
  function {:induction false} ReplaceChar(s: string, from: char, to: char): (r: string)
    ensures |r| == |s|
    ensures forall i :: 0 <= i < |s| ==> r[i] == (if s[i] == from then to else s[i])
  {
    if s == [] then []
    else [if s[0] == from then to else s[0]] + ReplaceChar(s[1..], from, to)
  }

  /** What is left of `s` after its leading white space. */
  function TrimStart(s: string): (r: string)
    ensures |r| <= |s| && r == s[|s| - |r|..]
    ensures AllWhitespace(s[..|s| - |r|])
    ensures r == [] || !IsWhitespace(r[0])
  {
    if s != [] && IsWhitespace(s[0]) then TrimStart(s[1..]) else s
  }

  lemma TrimStartWithoutSpace(s: string)
    requires s == [] || !IsWhitespace(s[0])
    ensures TrimStart(s) == s
  {
  }

  /** `s.replace(/\s+/g, '-')`: every maximal run of white space becomes one dash. */
  function CollapseWhitespace(s: string): string
    decreases |s|
  {
    if s == [] then []
    else if IsWhitespace(s[0]) then
      "-" + CollapseWhitespace(TrimStart(s))
    else [s[0]] + CollapseWhitespace(s[1..])
  }

  /** `name.toLowerCase().replace(/\s+/g, '-')`, the identifier derived from a display name. */
  function Slug(name: string): string {
    CollapseWhitespace(ToLowerAscii(name))
  }

  /** Number of occurrences of `c` in `s`. */
  function Count(s: string, c: char): nat {
    if s == [] then 0 else (if s[0] == c then 1 else 0) + Count(s[1..], c)
  }

  /** `s.split(sep)` for a one-character separator: the pieces between separators,
      empty pieces included. */
  function {:induction false} Split(s: string, sep: char): (parts: seq<string>)
    ensures |parts| == Count(s, sep) + 1
    ensures forall p | p in parts :: sep !in p
  {
    if s == [] then [[]]
    else
      var rest := Split(s[1..], sep);
      if s[0] == sep then [[]] + rest else [[s[0]] + rest[0]] + rest[1..]
  }

  /** `parts.join(sep)`. */
  function Join(parts: seq<string>, sep: char): string
    requires |parts| >= 1
  {
    if |parts| == 1 then parts[0] else parts[0] + [sep] + Join(parts[1..], sep)
  }

  predicate EndsWith(s: string, suffix: string) {
    |suffix| <= |s| && s[|s| - |suffix|..] == suffix
  }

  predicate StartsWith(s: string, prefix: string) {
    |prefix| <= |s| && s[..|prefix|] == prefix
  }

  /** Lexicographic order on code points; `a.localeCompare(b) > 0` is read as `!StrLe(a, b)`. */
  predicate StrLe(a: string, b: string) {
    a == [] || (b != [] && (a[0] < b[0] || (a[0] == b[0] && StrLe(a[1..], b[1..]))))
  }

  // ----- splitting -----

  /** Joining the pieces back with the separator gives the original string. */
  lemma {:induction false} SplitJoin(s: string, sep: char)
    ensures Join(Split(s, sep), sep) == s
  {
    if s != [] {
      var rest := Split(s[1..], sep);
      SplitJoin(s[1..], sep);
      if s[0] == sep {
        assert Split(s, sep) == [[]] + rest;
        assert s == [] + [sep] + s[1..];
      } else if |rest| == 1 {
        assert Split(s, sep) == [[s[0]] + rest[0]];
      } else {
        var parts := Split(s, sep);
        assert parts == [[s[0]] + rest[0]] + rest[1..];
        assert parts[1..] == rest[1..];
        assert Join(rest, sep) == rest[0] + [sep] + Join(rest[1..], sep);
      }
    }
  }

  /** The last piece is what follows the last separator, or the whole string when
      there is none. */
  lemma {:induction false} SplitLast(s: string, sep: char)
    ensures var parts := Split(s, sep); var last := parts[|parts| - 1];
      && |last| <= |s|
      && last == s[|s| - |last|..]
      && (|last| < |s| ==> s[|s| - |last| - 1] == sep)
      && (|parts| == 1 <==> last == s)
  {
    if s != [] {
      var rest := Split(s[1..], sep);
      var lr := rest[|rest| - 1];
      SplitLast(s[1..], sep);
      assert s[1..][|s| - 1 - |lr|..] == s[|s| - |lr|..];
      if s[0] == sep {
        assert Split(s, sep) == [[]] + rest;
      } else if |rest| == 1 {
        assert Split(s, sep) == [[s[0]] + rest[0]];
        assert [s[0]] + s[1..] == s;
      } else {
        assert Split(s, sep) == [[s[0]] + rest[0]] + rest[1..];
      }
    }
  }

  /** A string without the separator is one piece. */
  lemma {:induction false} SplitWithoutSeparator(a: string, sep: char)
    requires sep !in a
    ensures Split(a, sep) == [a]
  {
    if a != [] {
      SplitWithoutSeparator(a[1..], sep);
      assert a[0] != sep;
      assert [a[0]] + a[1..] == a;
    }
  }

  /** A separator-free head followed by a separator splits off as the first piece. */
  lemma {:induction false} SplitAtSeparator(a: string, sep: char, t: string)
    requires sep !in a
    ensures Split(a + [sep] + t, sep) == [a] + Split(t, sep)
  {
    if a == [] {
      assert a + [sep] + t == [sep] + t;
      assert ([sep] + t)[1..] == t;
    } else {
      var s := a + [sep] + t;
      assert s[1..] == a[1..] + [sep] + t;
      SplitAtSeparator(a[1..], sep, t);
      assert [a[0]] + a[1..] == a;
    }
  }

  lemma JoinThree(parts: seq<string>, sep: char)
    requires |parts| == 3
    ensures Join(parts, sep) == parts[0] + [sep] + parts[1] + [sep] + parts[2]
  {
    var tail := parts[1..];
    assert tail[1..] == [parts[2]];
    assert Join(tail[1..], sep) == parts[2];
    assert Join(tail, sep) == parts[1] + [sep] + parts[2];
    assert Join(parts, sep) == parts[0] + [sep] + (parts[1] + [sep] + parts[2]);
  }

  /** Three separator-free pieces joined by the separator split back into themselves. */
  lemma SplitThree(a: string, b: string, c: string, sep: char)
    requires sep !in a && sep !in b && sep !in c
    ensures Split(a + [sep] + b + [sep] + c, sep) == [a, b, c]
  {
    var bc := b + [sep] + c;
    SplitWithoutSeparator(c, sep);
    SplitAtSeparator(b, sep, c);
    assert Split(bc, sep) == [b, c];
    SplitAtSeparator(a, sep, bc);
    assert a + [sep] + b + [sep] + c == a + [sep] + bc;
  }

  // ----- slugs -----

  lemma {:induction false} TrimStartOfWord(t: string, u: string)
    requires t != [] && !IsWhitespace(t[|t| - 1])
    ensures TrimStart(t + u) == TrimStart(t) + u
  {
    if IsWhitespace(t[0]) {
      assert (t + u)[1..] == t[1..] + u;
      TrimStartOfWord(t[1..], u);
    }
  }

  lemma {:induction false} TrimStartOfSpaces(w: string, b: string)
    requires AllWhitespace(w)
    requires b == [] || !IsWhitespace(b[0])
    ensures TrimStart(w + b) == b
  {
    if w != [] {
      assert (w + b)[1..] == w[1..] + b;
      TrimStartOfSpaces(w[1..], b);
    }
  }

  /** The result has no white space left, and is no longer than the input. */
  lemma {:induction false} CollapseShape(s: string)
    ensures NoWhitespace(CollapseWhitespace(s))
    ensures |CollapseWhitespace(s)| <= |s|
    decreases |s|
  {
    if s != [] {
      if IsWhitespace(s[0]) {
        CollapseShape(TrimStart(s));
      } else {
        CollapseShape(s[1..]);
      }
    }
  }

  /** A string without white space is left as it is. */
  lemma {:induction false} CollapseWithoutWhitespace(s: string)
    requires NoWhitespace(s)
    ensures CollapseWhitespace(s) == s
  {
    if s != [] {
      CollapseWithoutWhitespace(s[1..]);
    }
  }

  /** A maximal run of white space between `a` and `b` becomes exactly one dash, and
      each side is treated on its own. */
  lemma {:induction false} CollapseRun(a: string, w: string, b: string)
    requires a == [] || !IsWhitespace(a[|a| - 1])
    requires |w| > 0 && AllWhitespace(w)
    requires b == [] || !IsWhitespace(b[0])
    ensures CollapseWhitespace(a + w + b) == CollapseWhitespace(a) + "-" + CollapseWhitespace(b)
    decreases |a|
  {
    if a == [] {
      calc {
        CollapseWhitespace(a + w + b);
        { assert a + w + b == w + b; }
        CollapseWhitespace(w + b);
        { CollapseLeadingRun(w, b); }
        "-" + CollapseWhitespace(b);
        { assert CollapseWhitespace(a) == []; }
        CollapseWhitespace(a) + "-" + CollapseWhitespace(b);
      }
    } else if IsWhitespace(a[0]) {
      CollapseSpaceStep(a, w + b);
      CollapseRun(TrimStart(a), w, b);
      CollapseRunAfterSpace(a, w, b);
    } else {
      CollapseRun(a[1..], w, b);
      CollapseRunAfterWord(a, w, b);
    }
  }

  lemma CollapseRunAfterSpace(a: string, w: string, b: string)
    requires a != [] && IsWhitespace(a[0]) && !IsWhitespace(a[|a| - 1])
    requires CollapseWhitespace(TrimStart(a) + w + b)
          == CollapseWhitespace(TrimStart(a)) + "-" + CollapseWhitespace(b)
    ensures CollapseWhitespace(a + w + b) == CollapseWhitespace(a) + "-" + CollapseWhitespace(b)
  {
    var a' := TrimStart(a);
    CollapseSpaceStep(a, w + b);
    Assoc(a, w, b);
    Assoc(a', w, b);
    DashAssoc("-", CollapseWhitespace(a'), CollapseWhitespace(b));
  }

  lemma CollapseRunAfterWord(a: string, w: string, b: string)
    requires a != [] && !IsWhitespace(a[0])
    requires CollapseWhitespace(a[1..] + w + b)
          == CollapseWhitespace(a[1..]) + "-" + CollapseWhitespace(b)
    ensures CollapseWhitespace(a + w + b) == CollapseWhitespace(a) + "-" + CollapseWhitespace(b)
  {
    var ca', cb := CollapseWhitespace(a[1..]), CollapseWhitespace(b);
    CollapseWordStep(a, w + b);
    Assoc(a, w, b);
    Assoc(a[1..], w, b);
    DashAssoc([a[0]], ca', cb);
  }

  lemma Assoc(x: string, y: string, z: string)
    ensures x + (y + z) == x + y + z
  {
  }

  lemma DashAssoc(x: string, y: string, z: string)
    ensures x + (y + "-" + z) == (x + y) + "-" + z
  {
  }

  lemma CollapseLeadingRun(w: string, b: string)
    requires |w| > 0 && AllWhitespace(w)
    requires b == [] || !IsWhitespace(b[0])
    ensures CollapseWhitespace(w + b) == "-" + CollapseWhitespace(b)
  {
    TrimStartOfSpaces(w, b);
    assert (w + b)[0] == w[0];
  }

  lemma CollapseSpaceStep(a: string, u: string)
    requires a != [] && IsWhitespace(a[0]) && !IsWhitespace(a[|a| - 1])
    ensures TrimStart(a) != []
    ensures CollapseWhitespace(a + u) == "-" + CollapseWhitespace(TrimStart(a) + u)
    ensures CollapseWhitespace(a) == "-" + CollapseWhitespace(TrimStart(a))
    ensures !IsWhitespace(TrimStart(a)[|TrimStart(a)| - 1])
  {
    TrimStartOfWord(a, u);
    assert (a + u)[0] == a[0];
  }

  lemma CollapseWordStep(a: string, u: string)
    requires a != [] && !IsWhitespace(a[0])
    ensures CollapseWhitespace(a + u) == [a[0]] + CollapseWhitespace(a[1..] + u)
    ensures CollapseWhitespace(a) == [a[0]] + CollapseWhitespace(a[1..])
  {
    assert (a + u)[0] == a[0];
    assert (a + u)[1..] == a[1..] + u;
  }

  /** A slug has no white space and no upper-case ASCII letter. */
  lemma SlugShape(name: string)
    ensures NoWhitespace(Slug(name)) && NoUpperAscii(Slug(name))
  {
    CollapseShape(ToLowerAscii(name));
    CollapseKeepsLowerCase(ToLowerAscii(name));
  }

  lemma {:induction false} CollapseKeepsLowerCase(s: string)
    requires NoUpperAscii(s)
    ensures NoUpperAscii(CollapseWhitespace(s))
    decreases |s|
  {
    if s != [] {
      if IsWhitespace(s[0]) {
        CollapseKeepsLowerCase(TrimStart(s));
      } else {
        CollapseKeepsLowerCase(s[1..]);
      }
    }
  }

  /** Taking the slug of a slug changes nothing. */
  lemma SlugIdempotent(name: string)
    ensures Slug(Slug(name)) == Slug(name)
  {
    var s := Slug(name);
    SlugShape(name);
    assert ToLowerAscii(s) == s;
    CollapseWithoutWhitespace(s);
  }

  /** Names that differ only in the case of ASCII letters get the same slug, so two
      distinct names can share an id. */
  lemma SlugIgnoresCase(name: string)
    ensures Slug(ToLowerAscii(name)) == Slug(name)
  {
    assert ToLowerAscii(ToLowerAscii(name)) == ToLowerAscii(name);
  }

  // ----- the order -----

  lemma {:induction false} StrLeTotal(a: string, b: string)
    ensures StrLe(a, b) || StrLe(b, a)
  {
    if a != [] && b != [] && a[0] == b[0] {
      StrLeTotal(a[1..], b[1..]);
    }
  }

  lemma {:induction false} StrLeTransitive(a: string, b: string, c: string)
    requires StrLe(a, b) && StrLe(b, c)
    ensures StrLe(a, c)
  {
    if a != [] && a[0] == b[0] && b[0] == c[0] {
      StrLeTransitive(a[1..], b[1..], c[1..]);
    }
  }

  /** Names in both orders are equal, so a sort of distinct names is strictly
      increasing. */
  lemma {:induction false} StrLeAntisymmetric(a: string, b: string)
    requires StrLe(a, b) && StrLe(b, a)
    ensures a == b
  {
    if a != [] {
      StrLeAntisymmetric(a[1..], b[1..]);
      assert a == [a[0]] + a[1..];
    }
  }
}
