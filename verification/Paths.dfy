/**
 Path strings (util/util.c:134-216): strtok, strrchr, basename and dirname on buffers of characters that
 end at a terminator.
 */
module Paths {

  import opened Basics

  const SLASH: char := '/'
  const NUL: char := '\0'

  /** The string in a buffer from position p up to its terminator. */
  function CStr(s: seq<char>, p: nat): (r: string)
    requires p <= |s|
    ensures p + |r| <= |s|
    decreases |s| - p
  {
    if p == |s| || s[p] == NUL then "" else [s[p]] + CStr(s, p + 1)
  }

  /** Position p is in the buffer and a terminator follows. */
  ghost predicate Terminated(s: seq<char>, p: nat) {
    p <= |s| && p + |CStr(s, p)| < |s|
  }

  // ---- components ------------------------------------------------------------------------------

  /** The non-empty components of a path, the first of them continuing `cur`. */
  function Split(cur: string, s: string): seq<string>
    decreases |s|
  {
    if s == "" then (if cur == "" then [] else [cur])
    else if s[0] == SLASH then (if cur == "" then [] else [cur]) + Split("", s[1..])
    else Split(cur + [s[0]], s[1..])
  }

  function Tokens(s: string): seq<string> {
    Split("", s)
  }

  lemma {:induction false} SplitAtSlash(cur: string, a: string, b: string)
    ensures Split(cur, a + [SLASH] + b) == Split(cur, a) + Tokens(b)
    decreases |a|
  {
    var s := a + [SLASH] + b;
    if a == "" {
      assert s[1..] == b;
    } else {
      assert s[0] == a[0] && s[1..] == a[1..] + [SLASH] + b;
      if a[0] == SLASH {
        SplitAtSlash("", a[1..], b);
      } else {
        SplitAtSlash(cur + [a[0]], a[1..], b);
      }
    }
  }

  lemma {:induction false} SplitPlain(cur: string, s: string)
    requires SLASH !in s
    ensures Split(cur, s) == if cur + s == "" then [] else [cur + s]
    decreases |s|
  {
    if s == "" {
      assert cur + s == cur;
    } else {
      assert cur + [s[0]] + s[1..] == cur + s;
      SplitPlain(cur + [s[0]], s[1..]);
    }
  }

  lemma TokensAtSlash(a: string, b: string)
    ensures Tokens(a + [SLASH] + b) == Tokens(a) + Tokens(b)
  {
    SplitAtSlash("", a, b);
  }

  lemma TokensPlain(s: string)
    requires SLASH !in s
    ensures Tokens(s) == if s == "" then [] else [s]
  {
    SplitPlain("", s);
    assert "" + s == s;
  }

  // ---- strtok ----------------------------------------------------------------------------------

  lemma CStrStep(s: seq<char>, p: nat)
    requires p < |s| && s[p] != NUL
    ensures CStr(s, p) == [s[p]] + CStr(s, p + 1)
    ensures Terminated(s, p) <==> Terminated(s, p + 1)
  {
  }

  /** A string that stops at a delimiter at p, or at its terminator there. */
  lemma {:induction false} CStrPrefix(s: seq<char>, o: nat, p: nat)
    requires o <= p <= |s| && NUL !in s[o..p]
    ensures CStr(s, o) == s[o..p] + CStr(s, p)
    decreases p - o
  {
    if o < p {
      assert s[o] in s[o..p] && s[o + 1..p] == s[o..p][1..];
      CStrPrefix(s, o + 1, p);
      CStrStep(s, o);
    }
  }

  lemma {:induction false} CStrLocal(s: seq<char>, t: seq<char>, p: nat)
    requires p <= |s| == |t| && s[p..] == t[p..]
    ensures CStr(s, p) == CStr(t, p)
    decreases |s| - p
  {
    if p < |s| {
      assert s[p] == s[p..][0] && t[p] == t[p..][0];
      assert s[p + 1..] == s[p..][1..] && t[p + 1..] == t[p..][1..];
      CStrLocal(s, t, p + 1);
    }
  }

  /** strtok with its static position in a string that is being split. */
  class Tokenizer {
    var lastp: Option<nat>

    constructor ()
      ensures lastp == None
    {
      lastp := None;
    }

    /** The components that further calls without a string will return. */
    ghost function Pending(s: seq<char>): seq<string>
      requires lastp.Some? ==> lastp.value <= |s|
      reads this
    {
      if lastp.None? then [] else Tokens(CStr(s, lastp.value))
    }

    /** Returns where the next component starts, terminated in place, and remembers the rest; returns
        nothing, and remembers nothing new, when there is no component left. */
    method Strtok(buf: array<char>, str: Option<nat>) returns (r: Option<nat>)
      requires str.Some? ==> Terminated(buf[..], str.value)
      requires lastp.Some? ==> Terminated(buf[..], lastp.value)
      modifies this, buf
      ensures lastp.Some? ==> Terminated(buf[..], lastp.value)
      ensures var rest := if str.Some? then Tokens(CStr(old(buf[..]), str.value)) else old(Pending(buf[..]));
              if rest == [] then r == None && buf[..] == old(buf[..]) && lastp == old(lastp)
              else r.Some? && Terminated(buf[..], r.value) && CStr(buf[..], r.value) == rest[0] && Pending(buf[..]) == rest[1..]
    {
      if lastp.None? && str.None? {
        return None;
      }
      ghost var s := buf[..];
      var start := if str.Some? then str.value else lastp.value;
      var p := SkipDelimiters(buf, start);
      if buf[p] == NUL {
        assert CStr(s, p) == "";
        return None;
      }
      var oldp := p;
      p := ScanComponent(buf, oldp);
      if buf[p] == SLASH {
        buf[p] := NUL;
        lastp := Some(p + 1);
        CutToken(s, buf[..], oldp, p);
      } else {
        LastToken(s, oldp, p);
        lastp := None;
      }
      return Some(oldp);
    }
  }

  /** while(*p == delim) ++p; */
  method SkipDelimiters(buf: array<char>, start: nat) returns (p: nat)
    requires Terminated(buf[..], start)
    ensures Terminated(buf[..], p) && p < buf.Length && buf[p] != SLASH
    ensures Tokens(CStr(buf[..], p)) == Tokens(CStr(buf[..], start))
  {
    p := start;
    while buf[p] == SLASH
      invariant Terminated(buf[..], p) && Tokens(CStr(buf[..], p)) == Tokens(CStr(buf[..], start))
      decreases buf.Length - p
    {
      SkipSlash(buf[..], p);
      p := p + 1;
    }
  }

  /** The component that starts at o ends before p. */
  method ScanComponent(buf: array<char>, o: nat) returns (p: nat)
    requires Terminated(buf[..], o)
    ensures o <= p < buf.Length && (buf[p] == SLASH || buf[p] == NUL) && Terminated(buf[..], p)
    ensures SLASH !in buf[o..p] && NUL !in buf[o..p]
  {
    p := o;
    while buf[p] != NUL && buf[p] != SLASH
      invariant o <= p < buf.Length && Terminated(buf[..], p)
      invariant SLASH !in buf[o..p] && NUL !in buf[o..p]
      decreases buf.Length - p
    {
      CStrStep(buf[..], p);
      assert buf[o..p + 1] == buf[o..p] + [buf[p]];
      p := p + 1;
    }
  }

  lemma LastToken(s: seq<char>, o: nat, p: nat)
    requires o < p < |s| && s[p] == NUL && SLASH !in s[o..p] && NUL !in s[o..p]
    ensures CStr(s, o) == s[o..p] && Tokens(CStr(s, o)) == [s[o..p]] && Terminated(s, o)
  {
    CStrPrefix(s, o, p);
    assert CStr(s, p) == "";
    TokensPlain(s[o..p]);
  }

  lemma SkipSlash(s: seq<char>, p: nat)
    requires p < |s| && s[p] == SLASH && Terminated(s, p)
    ensures Tokens(CStr(s, p)) == Tokens(CStr(s, p + 1)) && Terminated(s, p + 1)
  {
    CStrStep(s, p);
    assert CStr(s, p) == "" + [SLASH] + CStr(s, p + 1);
    TokensAtSlash("", CStr(s, p + 1));
  }

  lemma TokenEnds(s: seq<char>, o: nat, p: nat)
    requires o < p < |s| && s[p] == SLASH && SLASH !in s[o..p] && NUL !in s[o..p] && Terminated(s, p)
    ensures Tokens(CStr(s, o)) == [s[o..p]] + Tokens(CStr(s, p + 1)) && Terminated(s, p + 1)
  {
    CStrPrefix(s, o, p);
    CStrStep(s, p);
    assert CStr(s, o) == s[o..p] + [SLASH] + CStr(s, p + 1);
    TokensAtSlash(s[o..p], CStr(s, p + 1));
    TokensPlain(s[o..p]);
  }

  /** Overwriting the delimiter after a component leaves that component and the rest. */
  lemma CutToken(s: seq<char>, t: seq<char>, o: nat, p: nat)
    requires o < p < |s| && s[p] == SLASH && SLASH !in s[o..p] && NUL !in s[o..p] && Terminated(s, p)
    requires t == s[p := NUL]
    ensures var rest := Tokens(CStr(s, o));
            rest != [] && CStr(t, o) == rest[0] && Tokens(CStr(t, p + 1)) == rest[1..]
    ensures Terminated(t, o) && Terminated(t, p + 1)
  {
    TokenEnds(s, o, p);
    Cut(s, t, o, p);
  }

  lemma Cut(s: seq<char>, t: seq<char>, o: nat, p: nat)
    requires o < p < |s| && t == s[p := NUL] && NUL !in s[o..p] && Terminated(s, p + 1)
    ensures CStr(t, o) == s[o..p] && Terminated(t, o)
    ensures CStr(t, p + 1) == CStr(s, p + 1) && Terminated(t, p + 1)
  {
    assert t[o..p] == s[o..p];
    CStrPrefix(t, o, p);
    assert CStr(t, p) == "";
    assert t[p + 1..] == s[p + 1..];
    CStrLocal(t, s, p + 1);
  }

  // ---- dirname and basename ---------------------------------------------------------------------

  /** The index of the last slash, or -1. */
  function LastSlash(s: string): (i: int)
    ensures -1 <= i < |s|
    decreases |s|
  {
    if s == "" then -1 else if s[|s| - 1] == SLASH then |s| - 1 else LastSlash(s[..|s| - 1])
  }

  lemma {:induction false} LastSlashIs(s: string)
    ensures LastSlash(s) >= 0 ==> s[LastSlash(s)] == SLASH
    ensures forall k | LastSlash(s) < k < |s| :: s[k] != SLASH
    decreases |s|
  {
    if s != "" && s[|s| - 1] != SLASH {
      var u := s[..|s| - 1];
      LastSlashIs(u);
      forall k | LastSlash(s) < k < |s|
        ensures s[k] != SLASH
      {
        assert k < |u| ==> s[k] == u[k];
      }
    }
  }

  function Basename(path: string): string {
    path[LastSlash(path) + 1..]
  }

  /** A single trailing slash is dropped. */
  function Trimmed(path: string): string {
    if path != "" && path[|path| - 1] == SLASH then path[..|path| - 1] else path
  }

  function Dirname(path: string): string {
    if LastSlash(path) < 0 then "."
    else
      var t := Trimmed(path);
      var i := LastSlash(t);
      if i <= 0 then "/" else t[..i]
  }

  /** A path splits at its last slash. */
  lemma TokensAtLast(s: string)
    requires LastSlash(s) >= 0
    ensures Tokens(s) == Tokens(s[..LastSlash(s)]) + if Basename(s) == "" then [] else [Basename(s)]
  {
    LastSlashIs(s);
    var i := LastSlash(s);
    assert s == s[..i] + [SLASH] + s[i + 1..];
    TokensAtSlash(s[..i], s[i + 1..]);
    TokensPlain(s[i + 1..]);
  }

  lemma TokensTrimmed(s: string)
    ensures Tokens(Trimmed(s)) == Tokens(s)
  {
    if s != "" && s[|s| - 1] == SLASH {
      assert s == s[..|s| - 1] + [SLASH] + "";
      TokensAtSlash(s[..|s| - 1], "");
    }
  }

  predicate EndsInTwoSlashes(s: string) {
    |s| >= 2 && s[|s| - 1] == SLASH && s[|s| - 2] == SLASH
  }

  /** dirname of a path with components has all of them but the last, exactly when there is a slash in the path
      and it does not end in two. */
  lemma DirnameDropsLastIff(path: string)
    requires Tokens(path) != []
    ensures Tokens(Dirname(path)) == Tokens(path)[..|Tokens(path)| - 1] <==> SLASH in path && !EndsInTwoSlashes(path)
  {
    if SLASH in path {
      var k :| 0 <= k < |path| && path[k] == SLASH;
      SomeSlash(path, k);
      DirnameAtSlash(path);
    } else {
      LastSlashIs(path);
      TokensPlain(".");
      TokensPlain(path);
    }
  }

  lemma DirnameAtSlash(path: string)
    requires Tokens(path) != [] && LastSlash(path) >= 0
    ensures Tokens(Dirname(path)) == Tokens(path)[..|Tokens(path)| - 1] <==> !EndsInTwoSlashes(path)
  {
    TokensTrimmed(path);
    DirnameTokens(path);
    TrimmedEnds(path);
    var most, rest := FrontAndLast(Trimmed(path));
    DropLast(Tokens(path), most, rest);
  }

  lemma TrimmedEnds(path: string)
    requires Tokens(path) != []
    ensures EndsInTwoSlashes(path) <==> Trimmed(path) == "" || Trimmed(path)[|Trimmed(path)| - 1] == SLASH
  {
    TokensTrimmed(path);
    TokensPlain("");
  }

  /** The components before the last slash, and the one behind it, which only a slash at the end leaves out. */
  lemma FrontAndLast(t: string) returns (most: seq<string>, rest: seq<string>)
    ensures Tokens(t) == most + rest && |rest| <= 1
    ensures most == if LastSlash(t) < 0 then [] else Tokens(t[..LastSlash(t)])
    ensures rest == [] <==> t == "" || t[|t| - 1] == SLASH
  {
    EndsInSlash(t);
    if LastSlash(t) < 0 {
      TokensPlain(t);
      most, rest := [], Tokens(t);
    } else {
      TokensAtLast(t);
      most, rest := Tokens(t[..LastSlash(t)]), if Basename(t) == "" then [] else [Basename(t)];
    }
  }

  lemma DropLast(all: seq<string>, most: seq<string>, rest: seq<string>)
    requires all == most + rest && |rest| <= 1 && all != []
    ensures most == all[..|all| - 1] <==> rest != []
  {
  }

  lemma DirnameTokens(path: string)
    requires LastSlash(path) >= 0
    ensures var t := Trimmed(path);
            Tokens(Dirname(path)) == if LastSlash(t) < 0 then [] else Tokens(t[..LastSlash(t)])
  {
    RootHasNone();
    TokensPlain("");
    assert Trimmed(path)[..0] == "";
  }

  lemma EndsInSlash(s: string)
    ensures LastSlash(s) < 0 ==> SLASH !in s
    ensures LastSlash(s) >= 0 ==> (Basename(s) == "" <==> s[|s| - 1] == SLASH)
  {
    LastSlashIs(s);
  }

  /** dirname of an absolute path is a part of its front, so absolute, and is the root exactly when no slash but
      the first two and one at the end is in the path. */
  lemma DirnameAbsolute(path: string)
    requires path != "" && path[0] == SLASH
    ensures "/" <= Dirname(path) <= path
    ensures Dirname(path) == "/" <==> forall k | 2 <= k < |path| - 1 :: path[k] != SLASH
  {
    SomeSlash(path, 0);
    LastSlashIs(Trimmed(path));
  }

  /** dirname of a relative path is relative, unless the only slash ends the path. */
  lemma DirnameRelativeIff(path: string)
    requires path != "" && path[0] != SLASH
    ensures Dirname(path)[0] != SLASH <==> !(path[|path| - 1] == SLASH && SLASH !in path[..|path| - 1])
  {
    LastSlashIs(path);
    LastSlashIs(Trimmed(path));
  }

  lemma SomeSlash(s: string, k: nat)
    requires k < |s| && s[k] == SLASH
    ensures LastSlash(s) >= k
  {
    LastSlashIs(s);
  }

  lemma RootHasNone()
    ensures Tokens("/") == []
  {
    TokensAtSlash("", "");
    assert "" + [SLASH] + "" == "/";
  }

  /** basename is the last component exactly when the path has one and does not end in a slash. */
  lemma BasenameIsLastIff(path: string)
    ensures Basename(path) != "" <==> path != "" && path[|path| - 1] != SLASH
    ensures Basename(path) != "" ==> Tokens(path) != [] && Basename(path) == Tokens(path)[|Tokens(path)| - 1]
  {
    LastSlashIs(path);
    if LastSlash(path) >= 0 {
      TokensAtLast(path);
    } else {
      LastSlashIs(path);
      assert path[0..] == path;
      TokensPlain(path);
    }
  }

  /** Components are non-empty and have no slash. */
  lemma {:induction false} PlainTokens(cur: string, s: string)
    requires SLASH !in cur
    ensures forall c | c in Split(cur, s) :: c != "" && SLASH !in c
    decreases |s|
  {
    if s != "" {
      if s[0] == SLASH {
        PlainTokens("", s[1..]);
      } else {
        PlainTokens(cur + [s[0]], s[1..]);
      }
    }
  }

  // ---- the same in place ------------------------------------------------------------------------

  /** strrchr(buf, '/'). */
  method StrRchr(buf: array<char>) returns (pp: int)
    requires Terminated(buf[..], 0)
    ensures pp == LastSlash(CStr(buf[..], 0))
  {
    pp := -1;
    var p := 0;
    ghost var s, seen := buf[..], "";
    while buf[p] != NUL
      invariant p == |seen| < buf.Length && Terminated(s, p)
      invariant CStr(s, 0) == seen + CStr(s, p) && pp == LastSlash(seen)
      decreases buf.Length - p
    {
      CStrStep(s, p);
      LastSlashGrows(seen, s[p]);
      assert seen + ([s[p]] + CStr(s, p + 1)) == seen + [s[p]] + CStr(s, p + 1);
      seen := seen + [s[p]];
      if buf[p] == SLASH {
        pp := p;
      }
      p := p + 1;
    }
    assert CStr(s, p) == "" && CStr(s, 0) == seen;
  }

  lemma LastSlashGrows(s: string, c: char)
    ensures LastSlash(s + [c]) == if c == SLASH then |s| else LastSlash(s)
  {
    assert (s + [c])[..|s|] == s;
  }

  datatype DirResult = Dot | Root | Prefix

  /** dirname: answers ".", "/", or the buffer itself, cut at its last slash. */
  method DirnameInPlace(buf: array<char>) returns (r: DirResult)
    requires Terminated(buf[..], 0)
    modifies buf
    ensures Terminated(buf[..], 0)
    ensures Dirname(CStr(old(buf[..]), 0)) == match r case Dot => "." case Root => "/" case Prefix => CStr(buf[..], 0)
  {
    ghost var path := CStr(buf[..], 0);
    var sep := StrRchr(buf);
    if sep < 0 {
      return Dot;
    }
    CStrAt(buf[..], sep);
    if buf[sep + 1] == NUL {
      CutAt(buf[..], sep);
      buf[sep] := NUL;
      sep := StrRchr(buf);
    }
    if sep <= 0 {
      return Root;
    }
    CStrAt(buf[..], sep);
    CutAt(buf[..], sep);
    buf[sep] := NUL;
    return Prefix;
  }

  /** The characters of a string are those of its buffer; the terminator follows the last one. */
  lemma CStrAt(s: seq<char>, k: nat)
    requires Terminated(s, 0) && k < |CStr(s, 0)|
    ensures k + 1 < |s| && s[k] == CStr(s, 0)[k] && NUL !in s[..k]
    ensures s[k + 1] == NUL <==> k + 1 == |CStr(s, 0)|
  {
    CStrChars(s, 0, k);
  }

  lemma {:induction false} CStrChars(s: seq<char>, p: nat, k: nat)
    requires Terminated(s, p) && k < |CStr(s, p)|
    ensures p + k + 1 < |s| && s[p + k] == CStr(s, p)[k] && NUL !in s[p..p + k]
    ensures s[p + k + 1] == NUL <==> k + 1 == |CStr(s, p)|
    decreases k
  {
    CStrStep(s, p);
    if k > 0 {
      CStrChars(s, p + 1, k - 1);
      assert s[p..p + k] == [s[p]] + s[p + 1..p + k];
    }
  }

  lemma CutAt(s: seq<char>, k: nat)
    requires Terminated(s, 0) && k < |CStr(s, 0)|
    ensures CStr(s[k := NUL], 0) == CStr(s, 0)[..k] && Terminated(s[k := NUL], 0)
  {
    CStrAt(s, k);
    var t := s[k := NUL];
    assert s[0..k] == s[..k] && t[0..k] == s[..k];
    CStrPrefix(s, 0, k);
    CStrPrefix(t, 0, k);
    assert CStr(t, k) == "";
  }
}
