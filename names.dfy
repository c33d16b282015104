/** `FormatName` (Program.cs and Generator/Generator.cs): turns a schema
    identifier such as `packet_keep_alive` into a declaration name such as
    `KeepAlive`. The model is ASCII only. */
module Names {
  import opened Results

  /** `char.ToUpper`, restricted to ASCII letters. */
  function Upper(c: char): char
  {
    if 'a' <= c <= 'z' then (c as int - 32) as char else c
  }

  lemma UpperUnderscore(c: char)
    ensures Upper(c) == '_' <==> c == '_'
  {
  }

  /** `String.Replace(pat, rep)`: ordinal, left to right, non-overlapping. */
  function Replace(s: string, pat: string, rep: string): string
    requires |pat| > 0
    decreases |s|
  {
    if |s| < |pat| then s
    else if s[..|pat|] == pat then rep + Replace(s[|pat|..], pat, rep)
    else [s[0]] + Replace(s[1..], pat, rep)
  }

  /** `String.IndexOf(c)` for a character known to occur. */
  function FirstIndex(s: string, c: char): (i: nat)
    requires c in s
    ensures i < |s| && s[i] == c
    ensures forall j :: 0 <= j < i ==> s[j] != c
  {
    if s[0] == c then 0 else 1 + FirstIndex(s[1..], c)
  }

  lemma {:induction false} ReplaceNoLonger(s: string, pat: string, rep: string)
    requires |pat| > 0 && |rep| <= |pat|
    ensures |Replace(s, pat, rep)| <= |s|
    decreases |s|
  {
    if |s| < |pat| {
    } else if s[..|pat|] == pat {
      ReplaceNoLonger(s[|pat|..], pat, rep);
    } else {
      ReplaceNoLonger(s[1..], pat, rep);
    }
  }

  /** An occurrence of a pattern is rewritten somewhere, so a shrinking
      replacement really shrinks the string. */
  lemma {:induction false} ReplaceShrinks(s: string, pat: string, rep: string, i: nat)
    requires |pat| > 0 && |rep| < |pat|
    requires i + |pat| <= |s| && s[i..i + |pat|] == pat
    ensures |Replace(s, pat, rep)| < |s|
    decreases |s|
  {
    if s[..|pat|] == pat {
      ReplaceNoLonger(s[|pat|..], pat, rep);
    } else {
      assert i > 0;
      assert s[1..][i - 1..i - 1 + |pat|] == s[i..i + |pat|];
      ReplaceShrinks(s[1..], pat, rep, i - 1);
    }
  }

  /** The first line of `FormatName`: every `packet_` is removed. */
  function Strip(s: string): string
  {
    Replace(s, "packet_", "")
  }

  /** The `while (res.Contains("_"))` loop of `FormatName` as a recursive
      definition: take the first `_`, read the character after it and replace
      every `"_" + c` by the upper-cased `c`. `None` is the exception that
      `Substring(index + 1, 1)` raises when `_` is the last character. */
  function Camelize(res: string): Option<string>
    decreases |res|
  {
    if '_' !in res then Some(res)
    else
      var i := FirstIndex(res, '_');
      if i + 1 == |res| then None
      else
        var c := res[i + 1];
        assert res[i..i + 2] == ['_', c];
        ReplaceShrinks(res, ['_', c], [Upper(c)], i);
        Camelize(Replace(res, ['_', c], [Upper(c)]))
  }

  /** What `FormatName(input)` returns; `None` where it throws. */
  function Formatted(input: string): Option<string>
  {
    var res := Strip(input);
    if |res| == 0 then None
    else Camelize([Upper(res[0])] + res[1..])
  }

  /** The imperative `FormatName`: a `while` loop rewriting a local string. */
  method FormatName(input: string) returns (r: Option<string>)
    ensures r == Formatted(input)
  {
    var res := Strip(input);
    if |res| == 0 {
      return None;
    }
    res := [Upper(res[0])] + res[1..];
    ghost var start := res;
    while '_' in res
      invariant Camelize(res) == Camelize(start)
      decreases |res|
    {
      var index := FirstIndex(res, '_');
      if index + 1 == |res| {
        return None;
      }
      var after := res[index + 1];
      assert res[index..index + 2] == ['_', after];
      ReplaceShrinks(res, ['_', after], [Upper(after)], index);
      res := Replace(res, ['_', after], [Upper(after)]);
    }
    return Some(res);
  }

  lemma {:induction false} StripPrefix(s: string)
    ensures Strip("packet_" + s) == Strip(s)
  {
    var t := "packet_" + s;
    assert t[..7] == "packet_";
    assert t[7..] == s;
  }

  /** Removing `packet_` comes first: a leading `packet_` changes nothing. */
  lemma FormattedIgnoresPacketPrefix(s: string)
    ensures Formatted("packet_" + s) == Formatted(s)
  {
    StripPrefix(s);
  }

  lemma {:induction false} CamelizeNoUnderscore(res: string)
    ensures Camelize(res).Some? ==> '_' !in Camelize(res).value
    decreases |res|
  {
    if '_' in res {
      var i := FirstIndex(res, '_');
      if i + 1 < |res| {
        var c := res[i + 1];
        assert res[i..i + 2] == ['_', c];
        ReplaceShrinks(res, ['_', c], [Upper(c)], i);
        CamelizeNoUnderscore(Replace(res, ['_', c], [Upper(c)]));
      }
    }
  }

  /** The loop ends with no `_` left. */
  lemma FormattedHasNoUnderscore(s: string)
    ensures Formatted(s).Some? ==> '_' !in Formatted(s).value
  {
    var res := Strip(s);
    if |res| > 0 {
      CamelizeNoUnderscore([Upper(res[0])] + res[1..]);
    }
  }

  /** A replacement of `"_" + c` never creates nor removes a trailing `_`. */
  lemma {:induction false} ReplaceKeepsTrailingUnderscore(s: string, c: char)
    requires |s| > 0
    ensures |Replace(s, ['_', c], [Upper(c)])| > 0
    ensures Replace(s, ['_', c], [Upper(c)])[|Replace(s, ['_', c], [Upper(c)])| - 1] == '_'
            <==> s[|s| - 1] == '_'
    decreases |s|
  {
    var pat, rep := ['_', c], [Upper(c)];
    if |s| < 2 {
    } else if s[..2] == pat {
      if |s| == 2 {
        assert Replace(s[2..], pat, rep) == [];
        UpperUnderscore(c);
      } else {
        ReplaceKeepsTrailingUnderscore(s[2..], c);
      }
    } else {
      ReplaceKeepsTrailingUnderscore(s[1..], c);
    }
  }

  lemma {:induction false} CamelizeFailsIff(res: string)
    requires |res| > 0
    ensures Camelize(res).None? <==> res[|res| - 1] == '_'
    decreases |res|
  {
    if '_' in res {
      var i := FirstIndex(res, '_');
      if i + 1 < |res| {
        var c := res[i + 1];
        var pat, rep := ['_', c], [Upper(c)];
        assert res[i..i + 2] == pat;
        ReplaceShrinks(res, pat, rep, i);
        var next := Replace(res, pat, rep);
        assert Camelize(res) == Camelize(next);
        ReplaceKeepsTrailingUnderscore(res, c);
        CamelizeFailsIff(next);
      } else {
        assert Camelize(res) == None;
      }
    } else {
      assert Camelize(res) == Some(res);
      assert res[|res| - 1] in res;
    }
  }

  /** `FormatName` throws exactly when nothing is left after removing
      `packet_`, or when that string ends in `_`. */
  lemma FormattedFailsIff(s: string)
    ensures Formatted(s).None? <==> |Strip(s)| == 0 || Strip(s)[|Strip(s)| - 1] == '_'
  {
    var res := Strip(s);
    if |res| > 0 {
      var t := [Upper(res[0])] + res[1..];
      CamelizeFailsIff(t);
      if |res| == 1 {
        UpperUnderscore(res[0]);
      } else {
        assert t[|t| - 1] == res[|res| - 1];
      }
    }
  }

  lemma {:induction false} ReplaceKeepsHead(s: string, c: char)
    requires |s| > 0 && s[0] != '_'
    ensures |Replace(s, ['_', c], [Upper(c)])| > 0
    ensures Replace(s, ['_', c], [Upper(c)])[0] == s[0]
  {
    if |s| >= 2 {
      assert s[..2] != ['_', c];
    }
  }

  lemma {:induction false} CamelizeKeepsHead(res: string)
    requires |res| > 0 && res[0] != '_'
    ensures Camelize(res).Some? ==> |Camelize(res).value| > 0 && Camelize(res).value[0] == res[0]
    decreases |res|
  {
    if '_' in res {
      var i := FirstIndex(res, '_');
      if i + 1 < |res| {
        var c := res[i + 1];
        assert res[i..i + 2] == ['_', c];
        ReplaceShrinks(res, ['_', c], [Upper(c)], i);
        ReplaceKeepsHead(res, c);
        CamelizeKeepsHead(Replace(res, ['_', c], [Upper(c)]));
      }
    }
  }

  /** After stripping, the first character is upper-cased and kept in front;
      a name without `_` keeps the rest of its characters as they are. */
  lemma FormattedHead(s: string)
    requires |Strip(s)| > 0 && Strip(s)[0] != '_'
    ensures Formatted(s).Some? ==> |Formatted(s).value| > 0 && Formatted(s).value[0] == Upper(Strip(s)[0])
    ensures '_' !in Strip(s) ==> Formatted(s) == Some([Upper(Strip(s)[0])] + Strip(s)[1..])
  {
    var res := Strip(s);
    var t := [Upper(res[0])] + res[1..];
    assert Upper(res[0]) != '_' by { UpperUnderscore(res[0]); }
    CamelizeKeepsHead(t);
    if '_' !in res {
      assert '_' !in t by {
        forall k | 0 <= k < |t| ensures t[k] != '_' {
          if k > 0 { assert t[k] == res[k]; }
        }
      }
    }
  }

  lemma {:induction false} ReplaceAbsent(s: string, pat: string, rep: string, k: nat)
    requires k < |pat| && pat[k] !in s
    ensures Replace(s, pat, rep) == s
    decreases |s|
  {
    if |s| >= |pat| {
      assert s[..|pat|] != pat by { assert s[..|pat|][k] == s[k]; }
      ReplaceAbsent(s[1..], pat, rep, k);
    }
  }

  lemma {:induction false} ReplaceAfter(a: string, pat: string, rep: string, b: string)
    requires |pat| > 0 && pat[0] !in a
    ensures Replace(a + pat + b, pat, rep) == a + rep + Replace(b, pat, rep)
    decreases |a|
  {
    var s := a + pat + b;
    if a == [] {
      assert s == pat + b;
      assert s[..|pat|] == pat && s[|pat|..] == b;
    } else {
      assert s[0] == a[0] && a[0] != pat[0];
      assert s[..|pat|] != pat by { assert s[..|pat|][0] == s[0]; }
      assert s[1..] == a[1..] + pat + b;
      assert Replace(s, pat, rep) == [s[0]] + Replace(s[1..], pat, rep);
      ReplaceAfter(a[1..], pat, rep, b);
      assert a == [a[0]] + a[1..];
    }
  }

  /** A pattern whose first character occurs once is replaced exactly there. */
  lemma ReplaceOnce(a: string, pat: string, rep: string, b: string)
    requires |pat| > 0 && pat[0] !in a && pat[0] !in b
    ensures Replace(a + pat + b, pat, rep) == a + rep + b
  {
    ReplaceAfter(a, pat, rep, b);
    ReplaceAbsent(b, pat, rep, 0);
  }

  // The worked values below go through small steps whose identifier is a
  // parameter, so that the verifier does not unfold `Replace` over a whole
  // literal at once.

  lemma StripKeepAlive(name: string)
    requires name == "keep_alive"
    ensures Strip("packet_" + name) == name
  {
    StripPrefix(name);
    assert 'c' !in name;
    ReplaceAbsent(name, "packet_", "", 2);
  }

  lemma UpperKeepAlive(name: string)
    requires name == "keep_alive"
    ensures [Upper(name[0])] + name[1..] == "Keep_alive"
  {
    assert Upper(name[0]) == 'K';
  }

  lemma CamelizeKeepAlive(t: string)
    requires t == "Keep_alive"
    ensures Camelize(t) == Some("KeepAlive")
  {
    assert FirstIndex(t, '_') == 4;
    assert ['_', t[5]] == "_a" && [Upper(t[5])] == "A";
    assert t == "Keep" + "_a" + "live";
    ReplaceOnce("Keep", "_a", "A", "live");
    assert Replace(t, "_a", "A") == "KeepAlive";
    assert '_' !in "KeepAlive";
    assert Camelize("KeepAlive") == Some("KeepAlive");
  }

  /** Worked value: `packet_keep_alive` becomes `KeepAlive`. */
  lemma FormattedKeepAlive()
    ensures Formatted("packet_keep_alive") == Some("KeepAlive")
  {
    var name := "keep_alive";
    assert "packet_keep_alive" == "packet_" + name;
    StripKeepAlive(name);
    UpperKeepAlive(name);
    CamelizeKeepAlive("Keep_alive");
  }

  lemma StripSpawnEntity(name: string)
    requires name == "spawn_entity" || name == "spawnEntity"
    ensures Strip(name) == name
  {
    assert "packet_"[2] == 'c' && 'c' !in name;
    ReplaceAbsent(name, "packet_", "", 2);
  }

  lemma UpperSpawnEntity(name: string)
    requires name == "spawn_entity" || name == "spawnEntity"
    ensures name[0] == 's'
    ensures [Upper(name[0])] + name[1..] == if name[5] == '_' then "Spawn_entity" else "SpawnEntity"
  {
    assert Upper(name[0]) == 'S';
  }

  lemma CamelizeSpawnEntity(t: string)
    requires t == "Spawn_entity"
    ensures Camelize(t) == Some("SpawnEntity")
  {
    assert FirstIndex(t, '_') == 5;
    assert ['_', t[6]] == "_e" && [Upper(t[6])] == "E";
    assert t == "Spawn" + "_e" + "ntity";
    ReplaceOnce("Spawn", "_e", "E", "ntity");
    assert Replace(t, "_e", "E") == "SpawnEntity";
    assert '_' !in "SpawnEntity";
    assert Camelize("SpawnEntity") == Some("SpawnEntity");
  }

  /** Worked value: `spawn_entity` becomes `SpawnEntity`. */
  lemma FormattedSpawnEntity()
    ensures Formatted("spawn_entity") == Some("SpawnEntity")
  {
    var name := "spawn_entity";
    StripSpawnEntity(name);
    UpperSpawnEntity(name);
    CamelizeSpawnEntity("Spawn_entity");
  }

  /** Worked values: `x` becomes `X`; `packet_` leaves nothing and throws. */
  lemma FormattedShortExamples()
    ensures Formatted("x") == Some("X")
    ensures Formatted("packet_") == None
  {
    var name := "x";
    StripPrefix("");
    ReplaceAbsent(name, "packet_", "", 0);
    assert Strip(name) == name;
    assert [Upper(name[0])] + name[1..] == "X";
    assert Camelize("X") == Some("X");
  }

  /** Worked value: `spawnEntity` becomes `SpawnEntity`. */
  lemma FormattedSpawnEntityCamel()
    ensures Formatted("spawnEntity") == Some("SpawnEntity")
  {
    var name := "spawnEntity";
    StripSpawnEntity(name);
    UpperSpawnEntity(name);
    assert '_' !in "SpawnEntity";
  }

  /** Two different identifiers can format to the same name: `spawnEntity`
      and `spawn_entity` both become `SpawnEntity`. */
  lemma FormattedNotInjective()
    ensures "spawnEntity" != "spawn_entity"
    ensures Formatted("spawnEntity") == Formatted("spawn_entity") == Some("SpawnEntity")
  {
    FormattedSpawnEntity();
    FormattedSpawnEntityCamel();
    assert |"spawnEntity"| == 11 && |"spawn_entity"| == 12;
  }
}
