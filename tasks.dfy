/** Manifest lines (SSL/local/vad.py, the head of the loop in `main`).

    A line is split on whitespace as `str.split()` does. The first token
    is the audio path; the optional second token is the output name, which
    defaults to the path's base name without its extension
    (`os.path.splitext(os.path.basename(path))[0]`). Further tokens are
    ignored. A line with no token makes `task_split[0]` raise. */
module Tasks {
  import opened Wrappers
  import opened Seqs

  /** The characters `str.isspace()` accepts, which `str.split()` treats as
      separators. */
  predicate IsSpace(c: char)
  {
    var k := c as int;
    (9 <= k <= 13) || (28 <= k <= 32) || k == 0x85 || k == 0xA0 || k == 0x1680
    || (0x2000 <= k <= 0x200A) || k == 0x2028 || k == 0x2029 || k == 0x202F
    || k == 0x205F || k == 0x3000
  }

  /** No character of `s` is whitespace. */
  predicate NoSpace(s: string)
  {
    forall k :: 0 <= k < |s| ==> !IsSpace(s[k])
  }

  /** The longest prefix of `s` that holds no whitespace. */
  function Word(s: string): (w: string)
    ensures |w| <= |s| && w == s[..|w|] && NoSpace(w)
    ensures |w| == |s| || IsSpace(s[|w|])
  {
    if s == [] || IsSpace(s[0]) then [] else [s[0]] + Word(s[1..])
  }

  /** `s.split()`: the maximal runs of non-whitespace characters, in order. */
  function Tokens(s: string): seq<string>
    decreases |s|
  {
    if s == [] then []
    else if IsSpace(s[0]) then Tokens(s[1..])
    else
      var w := Word(s);
      [w] + Tokens(s[|w|..])
  }

  /** Every token is non-empty and holds no whitespace. */
  lemma {:induction false} TokensWellFormed(s: string)
    ensures forall t :: t in Tokens(s) ==> t != [] && NoSpace(t)
    decreases |s|
  {
    if s != [] {
      if IsSpace(s[0]) {
        TokensWellFormed(s[1..]);
      } else {
        TokensWellFormed(s[|Word(s)|..]);
      }
    }
  }

  /** `s` without its whitespace. */
  function Squeezed(s: string): string
  {
    if s == [] then [] else (if IsSpace(s[0]) then [] else [s[0]]) + Squeezed(s[1..])
  }

  lemma {:induction false} SqueezedAppend(a: string, b: string)
    ensures Squeezed(a + b) == Squeezed(a) + Squeezed(b)
    decreases |a|
  {
    if a != [] {
      assert (a + b)[1..] == a[1..] + b;
      SqueezedAppend(a[1..], b);
    } else {
      assert a + b == b;
    }
  }

  lemma {:induction false} SqueezedNoSpace(s: string)
    requires NoSpace(s)
    ensures Squeezed(s) == s
    decreases |s|
  {
    if s != [] {
      SqueezedNoSpace(s[1..]);
    }
  }

  /** Splitting loses exactly the whitespace: the tokens, put back
      together, are the line with its whitespace removed. */
  lemma {:induction false} TokensKeepText(s: string)
    ensures Flatten(Tokens(s)) == Squeezed(s)
    decreases |s|
  {
    if s != [] {
      if IsSpace(s[0]) {
        TokensKeepText(s[1..]);
      } else {
        var w := Word(s);
        TokensKeepText(s[|w|..]);
        assert s == w + s[|w|..];
        SqueezedAppend(w, s[|w|..]);
        SqueezedNoSpace(w);
      }
    }
  }

  /** A line with no token is all whitespace. */
  lemma {:induction false} NoTokensAllSpace(s: string)
    ensures Tokens(s) == [] <==> forall k :: 0 <= k < |s| ==> IsSpace(s[k])
    decreases |s|
  {
    if s != [] {
      if IsSpace(s[0]) {
        NoTokensAllSpace(s[1..]);
        assert forall k :: 1 <= k < |s| ==> s[k] == s[1..][k - 1];
      }
    }
  }

  lemma WordOfJoin(w: string, rest: string)
    requires w != [] && NoSpace(w)
    requires rest == [] || IsSpace(rest[0])
    ensures Word(w + rest) == w
  {
    var s := w + rest;
    var v := Word(s);
    assert forall k :: 0 <= k < |w| ==> s[k] == w[k];
    assert |s| > |w| ==> s[|w|] == rest[0];
    assert |v| == |w|;
    assert s[..|w|] == w;
  }

  /** Tokens joined by single spaces. */
  function Join(ts: seq<string>): string
  {
    if ts == [] then [] else if |ts| == 1 then ts[0] else ts[0] + " " + Join(ts[1..])
  }

  /** Splitting undoes joining with spaces. */
  lemma {:induction false} TokensOfJoin(ts: seq<string>)
    requires forall t :: t in ts ==> t != [] && NoSpace(t)
    ensures Tokens(Join(ts)) == ts
  {
    if ts != [] {
      var t := ts[0];
      assert t in ts;
      assert forall u :: u in ts[1..] ==> u in ts;
      if |ts| == 1 {
        WordOfJoin(t, []);
        assert t + [] == t;
        assert t[|t|..] == [];
      } else {
        var s := t + " " + Join(ts[1..]);
        assert s == t + (" " + Join(ts[1..]));
        WordOfJoin(t, " " + Join(ts[1..]));
        assert s[|t|..] == " " + Join(ts[1..]);
        assert (" " + Join(ts[1..]))[1..] == Join(ts[1..]);
        TokensOfJoin(ts[1..]);
      }
    }
  }

  /** Index of the last occurrence of `c` in `s`. */
  function LastIndex(s: string, c: char): (r: Option<nat>)
    ensures r.Some? ==> r.value < |s| && s[r.value] == c && c !in s[r.value + 1..]
    ensures r.None? ==> c !in s
  {
    if s == [] then None
    else if s[|s| - 1] == c then Some(|s| - 1)
    else LastIndex(s[..|s| - 1], c)
  }

  lemma {:induction false} LastIndexAtLeast(s: string, c: char, i: nat)
    requires i < |s| && s[i] == c
    ensures LastIndex(s, c).Some? && LastIndex(s, c).value >= i
  {
    if s[|s| - 1] != c {
      LastIndexAtLeast(s[..|s| - 1], c, i);
    }
  }

  /** An occurrence with no later one is the one found. */
  lemma {:induction false} LastIndexOf(s: string, c: char, i: nat)
    requires i < |s| && s[i] == c && c !in s[i + 1..]
    ensures LastIndex(s, c) == Some(i)
  {
    assert i < |s| - 1 ==> s[|s| - 1] == s[i + 1..][|s| - 2 - i];
    if s[|s| - 1] != c {
      var t := s[..|s| - 1];
      var u, v := t[i + 1..], s[i + 1..];
      assert u == v[..|u|];
      LastIndexOf(t, c, i);
    }
  }

  /** `os.path.basename(p)`: what follows the last `/`. */
  function Basename(p: string): (b: string)
    ensures |b| <= |p| && b == p[|p| - |b|..] && '/' !in b
    ensures |b| == |p| || p[|p| - |b| - 1] == '/'
  {
    match LastIndex(p, '/')
    case None => p
    case Some(i) => p[i + 1..]
  }

  /** `os.path.splitext(b)[0]` for a name without `/`: everything before the
      last dot, unless only dots precede that dot (`.bashrc` has no
      extension). */
  function Stem(b: string): string
  {
    match LastIndex(b, '.')
    case None => b
    case Some(d) => if exists k :: 0 <= k < d && b[k] != '.' then b[..d] else b
  }

  /** Removing the extension undoes adding one, for a name that is not
      only dots and an extension that has no dot. */
  lemma StemOfExtended(name: string, ext: string)
    requires '.' !in ext
    requires exists k :: 0 <= k < |name| && name[k] != '.'
    ensures Stem(name + "." + ext) == name
  {
    var b := name + "." + ext;
    var d := |name|;
    assert b[d] == '.' && b[d + 1..] == ext;
    LastIndexOf(b, '.', d);
    var k :| 0 <= k < |name| && name[k] != '.';
    assert b[k] == name[k];
    assert b[..d] == name;
  }

  /** A name without dots has no extension to remove. */
  lemma StemWithoutDot(b: string)
    requires '.' !in b
    ensures Stem(b) == b
  {
  }

  /** Every character of the line is whitespace. */
  predicate Blank(line: string)
  {
    forall k :: 0 <= k < |line| ==> IsSpace(line[k])
  }

  datatype Task = Task(wavFile: string, saveName: string)

  datatype TaskError = BlankLine  // `task_split[0]` on a line with no token

  function ParseTask(line: string): Result<Task, TaskError>
  {
    var ts := Tokens(line);
    if ts == [] then Failure(BlankLine)
    else Success(Task(ts[0], if |ts| > 1 then ts[1] else Stem(Basename(ts[0]))))
  }

  /** A line fails to parse exactly when it is blank. */
  lemma ParseFailsOnBlank(line: string)
    ensures ParseTask(line).Failure? <==> Blank(line)
  {
    NoTokensAllSpace(line);
  }

  /** A parsed path is a non-empty run of non-whitespace. */
  lemma ParseTaskSpec(line: string)
    ensures ParseTask(line).Failure? <==> Blank(line)
    ensures ParseTask(line).Success? ==>
      ParseTask(line).value.wavFile != [] && NoSpace(ParseTask(line).value.wavFile)
  {
    ParseFailsOnBlank(line);
    TokensWellFormed(line);
    if Tokens(line) != [] {
      assert Tokens(line)[0] in Tokens(line);
    }
  }

  /** Leading whitespace does not change the tokens. */
  lemma {:induction false} TokensSkipBlank(ws: string, s: string)
    requires Blank(ws)
    ensures Tokens(ws + s) == Tokens(s)
    decreases |ws|
  {
    if ws != [] {
      assert (ws + s)[0] == ws[0];
      assert (ws + s)[1..] == ws[1..] + s;
      TokensSkipBlank(ws[1..], s);
    } else {
      assert ws + s == s;
    }
  }

  /** A maximal run of non-whitespace, after any whitespace, is the next
      token: `str.split()` keeps it whole. */
  lemma TokensSplit(ws: string, t: string, rest: string)
    requires Blank(ws) && t != [] && NoSpace(t)
    requires rest == [] || IsSpace(rest[0])
    ensures Tokens(ws + t + rest) == [t] + Tokens(rest)
  {
    assert ws + t + rest == ws + (t + rest);
    TokensSkipBlank(ws, t + rest);
    WordOfJoin(t, rest);
    assert (t + rest)[0] == t[0];
    assert (t + rest)[|t|..] == rest;
  }

  /** A line `path name ...`, with any whitespace around and between the
      words and any further words after them, yields that path and that
      name. */
  lemma ParseWithName(ws0: string, path: string, ws1: string, name: string, rest: string)
    requires Blank(ws0) && path != [] && NoSpace(path)
    requires ws1 != [] && Blank(ws1) && name != [] && NoSpace(name)
    requires rest == [] || IsSpace(rest[0])
    ensures ParseTask(ws0 + path + ws1 + name + rest) == Success(Task(path, name))
  {
    var tail := ws1 + name + rest;
    assert ws0 + path + ws1 + name + rest == ws0 + path + tail;
    TokensSplit(ws0, path, tail);
    TokensSplit(ws1, name, rest);
  }

  /** A line holding only `path`, with any whitespace around it, yields
      the path and its base name without extension. */
  lemma ParseWithoutName(ws0: string, path: string, ws1: string)
    requires Blank(ws0) && path != [] && NoSpace(path) && Blank(ws1)
    ensures ParseTask(ws0 + path + ws1) == Success(Task(path, Stem(Basename(path))))
  {
    TokensSplit(ws0, path, ws1);
    NoTokensAllSpace(ws1);
  }
}
