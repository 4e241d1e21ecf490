/** Paths (kernel/src/fs/file_manager.rs): tokens, and the parent of a path. */
module Paths {
  import opened Disks

  const SLASH: char := '/'

  datatype PathToken = Current | Parent | Literal(name: string)

  function ToStr(t: PathToken): string
  {
    match t
    case Current => CURRENT
    case Parent => PARENT
    case Literal(s) => s
  }

  function FromStr(s: string): PathToken
  {
    if s == CURRENT then Current else if s == PARENT then Parent else Literal(s)
  }

  /** `path.split(SLASH)` */
  function Split(path: string): (parts: seq<string>)
    ensures |parts| > 0
  {
    if |path| == 0 then [""]
    else
      var rest := Split(path[1..]);
      if path[0] == SLASH then [""] + rest else [[path[0]] + rest[0]] + rest[1..]
  }

  /** The tokens of the parts that are not empty. */
  function TokensOf(parts: seq<string>): seq<PathToken>
  {
    if |parts| == 0 then []
    else (if parts[0] == "" then [] else [FromStr(parts[0])]) + TokensOf(parts[1..])
  }

  /** `path_str_to_tokens` */
  function Tokens(path: string): seq<PathToken>
  {
    TokensOf(Split(path))
  }

  /** `PathInfo::parent` */
  function ParentTokens(tokens: seq<PathToken>): seq<PathToken>
  {
    if |tokens| > 0 && tokens[|tokens| - 1].Literal? then tokens[..|tokens| - 1] else tokens + [Parent]
  }

  // ---- Laws ----

  /** A token that some path string yields. */
  predicate Proper(t: PathToken)
  {
    t.Literal? ==> t.name != "" && t.name != CURRENT && t.name != PARENT && SLASH !in t.name
  }

  function Join(tokens: seq<PathToken>): string
  {
    if |tokens| == 0 then "" else [SLASH] + ToStr(tokens[0]) + Join(tokens[1..])
  }

  lemma {:induction false} SplitHasNoSlash(path: string, i: nat)
    requires i < |Split(path)|
    ensures SLASH !in Split(path)[i]
    decreases |path|
  {
    if |path| > 0 {
      var rest := Split(path[1..]);
      if path[0] == SLASH {
        if i > 0 {
          SplitHasNoSlash(path[1..], i - 1);
        }
      } else {
        SplitHasNoSlash(path[1..], i);
      }
    }
  }

  lemma {:induction false} TokensOfProper(parts: seq<string>, i: nat)
    requires i < |TokensOf(parts)| && forall s | s in parts :: SLASH !in s
    ensures Proper(TokensOf(parts)[i])
  {
    if parts[0] == "" {
      assert TokensOf(parts) == TokensOf(parts[1..]);
      TokensOfProper(parts[1..], i);
    } else if i > 0 {
      assert TokensOf(parts)[i] == TokensOf(parts[1..])[i - 1];
      TokensOfProper(parts[1..], i - 1);
    }
  }

  /** No token is empty, contains a slash, or is a literal that means "." or "..". */
  lemma TokensAreProper(path: string, i: nat)
    requires i < |Tokens(path)|
    ensures Proper(Tokens(path)[i])
  {
    forall s | s in Split(path)
      ensures SLASH !in s
    {
      var k :| 0 <= k < |Split(path)| && Split(path)[k] == s;
      SplitHasNoSlash(path, k);
    }
    TokensOfProper(Split(path), i);
  }

  lemma {:induction false} SplitConcat(a: string, b: string)
    ensures Split(a + [SLASH] + b) == Split(a) + Split(b)
    decreases |a|
  {
    var whole := a + [SLASH] + b;
    if |a| == 0 {
      assert whole[1..] == b;
    } else {
      assert whole[1..] == a[1..] + [SLASH] + b;
      SplitConcat(a[1..], b);
    }
  }

  lemma {:induction false} TokensOfConcat(a: seq<string>, b: seq<string>)
    ensures TokensOf(a + b) == TokensOf(a) + TokensOf(b)
  {
    if |a| == 0 {
      assert a + b == b;
    } else {
      assert (a + b)[1..] == a[1..] + b;
      TokensOfConcat(a[1..], b);
    }
  }

  /** Joining two paths with a slash joins their tokens; extra slashes do not matter. */
  lemma TokensConcat(a: string, b: string)
    ensures Tokens(a + [SLASH] + b) == Tokens(a) + Tokens(b)
  {
    SplitConcat(a, b);
    TokensOfConcat(Split(a), Split(b));
  }

  lemma {:induction false} SplitOne(s: string)
    requires SLASH !in s
    ensures Split(s) == [s]
  {
    if |s| > 0 {
      SplitOne(s[1..]);
      assert [s[0]] + s[1..] == s;
    }
  }

  lemma OneToken(t: PathToken)
    requires Proper(t)
    ensures Tokens(ToStr(t)) == [t]
  {
    SplitOne(ToStr(t));
    assert TokensOf([ToStr(t)][1..]) == [];
  }

  lemma EmptyPath()
    ensures Tokens("") == []
  {
    assert TokensOf([""][1..]) == [];
  }

  lemma LeadingSlash(path: string)
    ensures Tokens([SLASH] + path) == Tokens(path)
  {
    EmptyPath();
    TokensConcat("", path);
    assert "" + [SLASH] + path == [SLASH] + path;
  }

  lemma NameThenRest(t: PathToken, name: string, tail: string)
    requires Tokens(name) == [t]
    ensures Tokens(name + ([SLASH] + tail)) == [t] + Tokens([SLASH] + tail)
  {
    LeadingSlash(tail);
    TokensConcat(name, tail);
    assert name + ([SLASH] + tail) == name + [SLASH] + tail;
  }

  lemma FirstToken(t: PathToken, rest: string)
    requires Proper(t) && (rest == "" || rest[0] == SLASH)
    ensures Tokens([SLASH] + ToStr(t) + rest) == [t] + Tokens(rest)
  {
    LeadingSlash(ToStr(t) + rest);
    assert [SLASH] + ToStr(t) + rest == [SLASH] + (ToStr(t) + rest);
    OneToken(t);
    if rest == "" {
      EmptyPath();
      assert ToStr(t) + rest == ToStr(t);
    } else {
      assert [SLASH] + rest[1..] == rest;
      NameThenRest(t, ToStr(t), rest[1..]);
    }
  }

  /** Writing tokens out as a path and reading them back is the identity. */
  lemma {:induction false} JoinThenTokens(tokens: seq<PathToken>)
    requires forall t | t in tokens :: Proper(t)
    ensures Tokens(Join(tokens)) == tokens
  {
    if |tokens| == 0 {
      EmptyPath();
    } else {
      JoinThenTokens(tokens[1..]);
      FirstToken(tokens[0], Join(tokens[1..]));
    }
  }
}
