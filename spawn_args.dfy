/**
 * The argument vector the POSIX spawn path builds for execv: the executable
 * name at index 0, then the tokens strtok_r cuts from the parameter string
 * at spaces (runs of spaces collapse), then a NULL entry.
 *
 * A C string is modelled by the characters before its terminator; a NULL
 * pointer in the argv array is `None`, a non-NULL one `Some(text)`.
 * strtok_r's save pointer is modelled as an index into the copied string.
 */
module SpawnArgs {
  import opened Wrappers

  /** The only delimiter handed to strtok_r. */
  const Delimiter: char := ' '

  /** The size of the `params` array the spawn path declares. */
  const ParamsCapacity: nat := 1024

  // ---------------------------------------------------------------------
  // strtok_r(·, " ", &save)
  // ---------------------------------------------------------------------

  /** First index at or after `pos` that is not a delimiter, or |s| (strspn). */
  function SkipDelimiters(s: string, pos: nat): (r: nat)
    requires pos <= |s|
    ensures pos <= r <= |s|
    ensures r < |s| ==> s[r] != Delimiter
    decreases |s| - pos
  {
    if pos < |s| && s[pos] == Delimiter then SkipDelimiters(s, pos + 1) else pos
  }

  /** First index at or after `pos` that is a delimiter, or |s| (strcspn). */
  function TokenEnd(s: string, pos: nat): (r: nat)
    requires pos <= |s|
    ensures pos <= r <= |s|
    ensures r < |s| ==> s[r] == Delimiter
    decreases |s| - pos
  {
    if pos < |s| && s[pos] != Delimiter then TokenEnd(s, pos + 1) else pos
  }

  /** Everything SkipDelimiters passes over is a delimiter. */
  lemma {:induction false} SkippedAreDelimiters(s: string, pos: nat)
    requires pos <= |s|
    ensures forall k :: pos <= k < SkipDelimiters(s, pos) ==> s[k] == Delimiter
    decreases |s| - pos
  {
    if pos < |s| && s[pos] == Delimiter {
      SkippedAreDelimiters(s, pos + 1);
    }
  }

  /** Nothing TokenEnd passes over is a delimiter. */
  lemma {:induction false} SpannedAreNotDelimiters(s: string, pos: nat)
    requires pos <= |s|
    ensures forall k :: pos <= k < TokenEnd(s, pos) ==> s[k] != Delimiter
    decreases |s| - pos
  {
    if pos < |s| && s[pos] != Delimiter {
      SpannedAreNotDelimiters(s, pos + 1);
    }
  }

  /**
   * One call of strtok_r resuming at index `save`: the token it returns and
   * the new save index, or `None` (a NULL return) when only delimiters are
   * left. The delimiter that ends a token is overwritten and skipped, so the
   * next call resumes one past it.
   */
  function NextToken(s: string, save: nat): (r: Option<(string, nat)>)
    requires save <= |s|
    ensures r.Some? ==> save < r.value.1 <= |s|
  {
    var start := SkipDelimiters(s, save);
    if start == |s| then None
    else
      var end := TokenEnd(s, start);
      Some((s[start..end], if end < |s| then end + 1 else end))
  }

  /** A nonempty, delimiter-free string: what strtok_r can return. */
  predicate IsWord(w: string)
  {
    w != [] && Delimiter !in w
  }

  /** strtok_r returns NULL exactly when only spaces are left. */
  lemma NextTokenNoneIffBlank(s: string, save: nat)
    requires save <= |s|
    ensures NextToken(s, save).None? <==> forall k :: save <= k < |s| ==> s[k] == Delimiter
  {
    SkippedAreDelimiters(s, save);
  }

  /** A token strtok_r returns is a word. */
  lemma NextTokenIsWord(s: string, save: nat)
    requires save <= |s|
    ensures NextToken(s, save).Some? ==> IsWord(NextToken(s, save).value.0)
  {
    var start := SkipDelimiters(s, save);
    if start < |s| {
      var end := TokenEnd(s, start);
      SpannedAreNotDelimiters(s, start);
      var t := s[start..end];
      forall k | 0 <= k < |t| ensures t[k] != Delimiter {
        assert t[k] == s[start + k];
      }
    }
  }

  /** The tokens successive strtok_r calls return, resuming at `save`. */
  function TokensFrom(s: string, save: nat): seq<string>
    requires save <= |s|
    decreases |s| - save
  {
    match NextToken(s, save)
    case None => []
    case Some((token, next)) => [token] + TokensFrom(s, next)
  }

  /** The tokens of a whole parameter string. */
  function Tokens(s: string): seq<string>
  {
    TokensFrom(s, 0)
  }

  // ---------------------------------------------------------------------
  // Reference definitions, independent of strtok_r
  // ---------------------------------------------------------------------

  /** The fields of s[i..] between single delimiters, empty fields included. */
  function FieldsFrom(s: string, i: nat): (fs: seq<string>)
    requires i <= |s|
    ensures |fs| > 0
    decreases |s| - i
  {
    if i == |s| then [[]]
    else
      var rest := FieldsFrom(s, i + 1);
      if s[i] == Delimiter then [[]] + rest
      else [[s[i]] + rest[0]] + rest[1..]
  }

  /** Splitting at every single delimiter. */
  function Fields(s: string): seq<string>
  {
    FieldsFrom(s, 0)
  }

  /** `fs` without its empty strings, order kept. */
  function NonEmpty(fs: seq<string>): seq<string>
  {
    if fs == [] then []
    else (if fs[0] == [] then [] else [fs[0]]) + NonEmpty(fs[1..])
  }

  /** The characters of s[i..] that are not delimiters, in order. */
  function NonDelimitersFrom(s: string, i: nat): string
    requires i <= |s|
    decreases |s| - i
  {
    if i == |s| then []
    else (if s[i] == Delimiter then [] else [s[i]]) + NonDelimitersFrom(s, i + 1)
  }

  /** The concatenation of a sequence of strings. */
  function Concat(ts: seq<string>): string
  {
    if ts == [] then [] else ts[0] + Concat(ts[1..])
  }

  /** The words of `ws` separated by single delimiters. */
  function Join(ws: seq<string>): string
  {
    if ws == [] then []
    else if |ws| == 1 then ws[0]
    else ws[0] + ([Delimiter] + Join(ws[1..]))
  }

  // ---------------------------------------------------------------------
  // Properties of the tokenizer
  // ---------------------------------------------------------------------

  /** NonEmpty unfolded at a leading field. */
  lemma NonEmptyCons(f: string, fs: seq<string>)
    ensures NonEmpty([f] + fs) == (if f == [] then [] else [f]) + NonEmpty(fs)
  {
    assert ([f] + fs)[1..] == fs;
  }

  /** Concat unfolded at a leading string. */
  lemma ConcatCons(t: string, ts: seq<string>)
    ensures Concat([t] + ts) == t + Concat(ts)
  {
    assert ([t] + ts)[1..] == ts;
  }

  /** Concatenation of sequences is associative. */
  lemma AppendAssoc<T>(a: seq<T>, b: seq<T>, c: seq<T>)
    ensures a + (b + c) == (a + b) + c
  {
  }

  /** strtok_r skips a leading space without producing anything. */
  lemma TokensFromSkip(s: string, save: nat)
    requires save < |s| && s[save] == Delimiter
    ensures TokensFrom(s, save) == TokensFrom(s, save + 1)
  {
    assert NextToken(s, save) == NextToken(s, save + 1);
  }

  /** At a non-space, strtok_r returns the run up to the next space. */
  lemma TokensFromToken(s: string, save: nat, e: nat)
    requires save < |s| && s[save] != Delimiter && e == TokenEnd(s, save)
    ensures e < |s| ==> TokensFrom(s, save) == [s[save..e]] + TokensFrom(s, e + 1)
    ensures e == |s| ==> TokensFrom(s, save) == [s[save..]]
  {
    assert SkipDelimiters(s, save) == save;
    if e == |s| {
      assert s[save..e] == s[save..];
      assert TokensFrom(s, e) == [];
    }
  }

  /**
   * A run of non-delimiters from q up to e (a delimiter or the end) forms
   * the leading field of s[q..].
   */
  lemma {:induction false} FieldsOfSpan(s: string, q: nat, e: nat)
    requires q <= e <= |s|
    requires forall k :: q <= k < e ==> s[k] != Delimiter
    requires e < |s| ==> s[e] == Delimiter
    ensures e < |s| ==> FieldsFrom(s, q) == [s[q..e]] + FieldsFrom(s, e + 1)
    ensures e == |s| ==> FieldsFrom(s, q) == [s[q..]]
    decreases e - q
  {
    if q < e {
      FieldsOfSpan(s, q + 1, e);
      assert [s[q]] + s[q + 1..e] == s[q..e];
      assert [s[q]] + s[q + 1..] == s[q..];
    } else if e < |s| {
      assert s[q..e] == [];
    } else {
      assert s[q..] == [];
    }
  }

  /** A leading space contributes only an empty field. */
  lemma NonEmptyFieldsAtSpace(s: string, save: nat)
    requires save < |s| && s[save] == Delimiter
    ensures NonEmpty(FieldsFrom(s, save)) == NonEmpty(FieldsFrom(s, save + 1))
  {
    NonEmptyCons([], FieldsFrom(s, save + 1));
  }

  /** A leading run of non-spaces is the first nonempty field. */
  lemma NonEmptyFieldsAtToken(s: string, save: nat, e: nat)
    requires save < |s| && s[save] != Delimiter && e == TokenEnd(s, save)
    ensures e < |s| ==> NonEmpty(FieldsFrom(s, save)) == [s[save..e]] + NonEmpty(FieldsFrom(s, e + 1))
    ensures e == |s| ==> NonEmpty(FieldsFrom(s, save)) == [s[save..]]
  {
    SpannedAreNotDelimiters(s, save);
    FieldsOfSpan(s, save, e);
    if e < |s| {
      NonEmptyCons(s[save..e], FieldsFrom(s, e + 1));
    } else {
      NonEmptyCons(s[save..], []);
    }
  }

  /** strtok_r from `save` returns the nonempty fields of s[save..]. */
  lemma {:induction false} TokensFromAreFields(s: string, save: nat)
    requires save <= |s|
    ensures TokensFrom(s, save) == NonEmpty(FieldsFrom(s, save))
    decreases |s| - save
  {
    if save == |s| {
      NonEmptyCons([], []);
    } else if s[save] == Delimiter {
      TokensFromSkip(s, save);
      TokensFromAreFields(s, save + 1);
      NonEmptyFieldsAtSpace(s, save);
    } else {
      var e := TokenEnd(s, save);
      TokensFromToken(s, save, e);
      NonEmptyFieldsAtToken(s, save, e);
      if e < |s| {
        TokensFromAreFields(s, e + 1);
      }
    }
  }

  /** The tokenizer splits at every space and drops the empty fields. */
  lemma TokensAreNonEmptyFields(s: string)
    ensures Tokens(s) == NonEmpty(Fields(s))
  {
    TokensFromAreFields(s, 0);
  }

  /** Every token is nonempty and contains no space. */
  lemma {:induction false} TokensAreWords(s: string, save: nat)
    requires save <= |s|
    ensures forall i :: 0 <= i < |TokensFrom(s, save)| ==> IsWord(TokensFrom(s, save)[i])
    decreases |s| - save
  {
    NextTokenIsWord(s, save);
    match NextToken(s, save)
    case None =>
    case Some((token, next)) =>
      TokensAreWords(s, next);
  }

  /** No tokens at all exactly when the string is empty or all spaces. */
  lemma NoTokensIffBlank(s: string)
    ensures Tokens(s) == [] <==> forall k :: 0 <= k < |s| ==> s[k] == Delimiter
  {
    NextTokenNoneIffBlank(s, 0);
  }

  /** A space contributes no character. */
  lemma NonDelimitersAtSpace(s: string, i: nat)
    requires i < |s| && s[i] == Delimiter
    ensures NonDelimitersFrom(s, i) == NonDelimitersFrom(s, i + 1)
  {
    assert [] + NonDelimitersFrom(s, i + 1) == NonDelimitersFrom(s, i + 1);
  }

  /** A run of non-spaces keeps all its characters; the space after it is dropped. */
  lemma {:induction false} NonDelimitersOfSpan(s: string, q: nat, e: nat)
    requires q <= e <= |s|
    requires forall k :: q <= k < e ==> s[k] != Delimiter
    requires e < |s| ==> s[e] == Delimiter
    ensures e < |s| ==> NonDelimitersFrom(s, q) == s[q..e] + NonDelimitersFrom(s, e + 1)
    ensures e == |s| ==> NonDelimitersFrom(s, q) == s[q..e]
    decreases e - q
  {
    if q < e {
      NonDelimitersOfSpan(s, q + 1, e);
      assert [s[q]] + s[q + 1..e] == s[q..e];
      if e < |s| {
        AppendAssoc([s[q]], s[q + 1..e], NonDelimitersFrom(s, e + 1));
      } else {
        assert NonDelimitersFrom(s, q + 1) == s[q + 1..e];
      }
    } else if e < |s| {
      NonDelimitersAtSpace(s, q);
      assert s[q..e] + NonDelimitersFrom(s, e + 1) == NonDelimitersFrom(s, e + 1);
    } else {
      assert s[q..e] == [];
    }
  }

  /** Concatenating strtok_r's output past a run of non-spaces starts with that run. */
  lemma ConcatAtToken(s: string, save: nat, e: nat)
    requires save < |s| && s[save] != Delimiter && e == TokenEnd(s, save)
    ensures e < |s| ==> Concat(TokensFrom(s, save)) == s[save..e] + Concat(TokensFrom(s, e + 1))
    ensures e == |s| ==> Concat(TokensFrom(s, save)) == s[save..e]
  {
    TokensFromToken(s, save, e);
    if e < |s| {
      ConcatCons(s[save..e], TokensFrom(s, e + 1));
    } else {
      ConcatCons(s[save..], []);
      assert s[save..e] + [] == s[save..e];
    }
  }

  /** The tokens, concatenated, are the non-space characters of s[save..] in order. */
  lemma {:induction false} TokensKeepCharacters(s: string, save: nat)
    requires save <= |s|
    ensures Concat(TokensFrom(s, save)) == NonDelimitersFrom(s, save)
    decreases |s| - save
  {
    if save == |s| {
    } else if s[save] == Delimiter {
      TokensFromSkip(s, save);
      NonDelimitersAtSpace(s, save);
      TokensKeepCharacters(s, save + 1);
    } else {
      var e := TokenEnd(s, save);
      ConcatAtToken(s, save, e);
      SpannedAreNotDelimiters(s, save);
      NonDelimitersOfSpan(s, save, e);
      if e < |s| {
        TokensKeepCharacters(s, e + 1);
      }
    }
  }

  /** TokenEnd stops at the first delimiter, wherever that is shown to be. */
  lemma {:induction false} TokenEndAt(s: string, pos: nat, e: nat)
    requires pos <= e <= |s|
    requires forall k :: pos <= k < e ==> s[k] != Delimiter
    requires e < |s| ==> s[e] == Delimiter
    ensures TokenEnd(s, pos) == e
    decreases e - pos
  {
    if pos < e {
      TokenEndAt(s, pos + 1, e);
    }
  }

  /** strtok_r at the start of a word followed by a space or the end returns that word. */
  lemma NextTokenOfWord(prefix: string, w: string, rest: string)
    requires IsWord(w)
    requires rest == [] || rest[0] == Delimiter
    ensures NextToken(prefix + (w + rest), |prefix|) ==
      Some((w, |prefix| + |w| + if rest == [] then 0 else 1))
  {
    var s := prefix + (w + rest);
    var p := |prefix|;
    assert s[p] == w[0];
    assert SkipDelimiters(s, p) == p;
    forall k | p <= k < p + |w| ensures s[k] != Delimiter {
      assert s[k] == w[k - p];
    }
    TokenEndAt(s, p, p + |w|);
    assert s[p..p + |w|] == w;
  }

  /** A last word after `prefix` is the last token. */
  lemma TokensOfLastWord(prefix: string, w: string)
    requires IsWord(w)
    ensures TokensFrom(prefix + w, |prefix|) == [w]
  {
    NextTokenOfWord(prefix, w, []);
    assert prefix + (w + []) == prefix + w;
    assert TokensFrom(prefix + w, |prefix| + |w|) == [];
  }

  /** A word and a space after `prefix`: the word is the next token, and strtok_r resumes after the space. */
  lemma TokensOfWordThenSpace(prefix: string, w: string, tail: string)
    requires IsWord(w)
    ensures TokensFrom(prefix + (w + ([Delimiter] + tail)), |prefix|) ==
      [w] + TokensFrom(((prefix + w) + [Delimiter]) + tail, |(prefix + w) + [Delimiter]|)
  {
    NextTokenOfWord(prefix, w, [Delimiter] + tail);
    calc {
      prefix + (w + ([Delimiter] + tail));
      { AppendAssoc(prefix, w, [Delimiter] + tail); }
      (prefix + w) + ([Delimiter] + tail);
      { AppendAssoc(prefix + w, [Delimiter], tail); }
      ((prefix + w) + [Delimiter]) + tail;
    }
  }

  /** Tokenizing words joined by single spaces gives the words back. */
  lemma {:induction false} TokensOfJoinAfter(prefix: string, ws: seq<string>)
    requires forall i :: 0 <= i < |ws| ==> IsWord(ws[i])
    ensures TokensFrom(prefix + Join(ws), |prefix|) == ws
    decreases |ws|
  {
    if ws == [] {
      assert prefix + Join(ws) == prefix;
    } else if |ws| == 1 {
      TokensOfLastWord(prefix, ws[0]);
    } else {
      var w, tail := ws[0], Join(ws[1..]);
      var prefix' := (prefix + w) + [Delimiter];
      assert prefix + Join(ws) == prefix + (w + ([Delimiter] + tail));
      TokensOfWordThenSpace(prefix, w, tail);
      TokensOfJoinAfter(prefix', ws[1..]);
      assert TokensFrom(prefix + Join(ws), |prefix|) == [w] + ws[1..];
      assert ws == [w] + ws[1..];
    }
  }

  /** Tokens is a left inverse of Join on words. */
  lemma TokensOfJoin(ws: seq<string>)
    requires forall i :: 0 <= i < |ws| ==> IsWord(ws[i])
    ensures Tokens(Join(ws)) == ws
  {
    TokensOfJoinAfter([], ws);
    assert [] + Join(ws) == Join(ws);
  }

  // ---------------------------------------------------------------------
  // The argv array
  // ---------------------------------------------------------------------

  /** Each token as a non-NULL argv entry. */
  function Wrap(ts: seq<string>): (r: seq<Option<string>>)
    ensures |r| == |ts|
    ensures forall i :: 0 <= i < |ts| ==> r[i] == Some(ts[i])
  {
    if ts == [] then [] else [Some(ts[0])] + Wrap(ts[1..])
  }

  /** The argv handed to execv: the executable, the tokens, then NULL. */
  function Argv(execName: string, cmdParameters: string): seq<Option<string>>
  {
    [Some(execName)] + Wrap(Tokens(cmdParameters)) + [None]
  }

  /** Entry i of the argv of `execName` and `ts`. */
  function ArgvEntry(execName: string, ts: seq<string>, i: nat): Option<string>
  {
    if i == 0 then Some(execName) else if i <= |ts| then Some(ts[i - 1]) else None
  }

  /**
   * The array after the loop has written entries 0..n of the argv of
   * `execName` and `ts` over `orig`.
   */
  function Layout(execName: string, ts: seq<string>, n: nat, orig: seq<Option<string>>): (r: seq<Option<string>>)
    ensures |r| == |orig|
    ensures forall i :: 0 <= i < |orig| ==> r[i] == if i <= n then ArgvEntry(execName, ts, i) else orig[i]
  {
    seq(|orig|, i requires 0 <= i < |orig| => if i <= n then ArgvEntry(execName, ts, i) else orig[i])
  }

  /** Writing the executable name starts the layout. */
  lemma LayoutStart(execName: string, ts: seq<string>, orig: seq<Option<string>>)
    requires 0 < |orig|
    ensures orig[0 := Some(execName)] == Layout(execName, ts, 0, orig)
  {
  }

  /** Writing entry n + 1 extends the layout by one. */
  lemma LayoutStep(execName: string, ts: seq<string>, n: nat, orig: seq<Option<string>>, v: Option<string>)
    requires n + 1 < |orig| && v == ArgvEntry(execName, ts, n + 1)
    ensures Layout(execName, ts, n, orig)[n + 1 := v] == Layout(execName, ts, n + 1, orig)
  {
  }

  /** A finished layout: the argv up to n, the original contents after it. */
  lemma LayoutParts(execName: string, ts: seq<string>, n: nat, orig: seq<Option<string>>)
    requires n == |ts| + 1 && n < |orig|
    ensures Layout(execName, ts, n, orig)[..n + 1] == [Some(execName)] + Wrap(ts) + [None]
    ensures Layout(execName, ts, n, orig)[n + 1..] == orig[n + 1..]
  {
    ArgvEntries(Layout(execName, ts, n, orig)[..n + 1], execName, ts);
  }

  /** An array prefix laid out entry by entry as the argv of `execName` and `ts`. */
  lemma ArgvEntries(a: seq<Option<string>>, execName: string, ts: seq<string>)
    requires |a| == |ts| + 2
    requires forall i :: 0 <= i < |a| ==> a[i] == ArgvEntry(execName, ts, i)
    ensures a == [Some(execName)] + Wrap(ts) + [None]
  {
    var b := [Some(execName)] + Wrap(ts) + [None];
    forall i | 0 <= i < |a| ensures a[i] == b[i] {
      if i == 0 {
      } else if i <= |ts| {
        assert b[i] == Wrap(ts)[i - 1];
      } else {
        assert b[i] == None;
      }
    }
  }

  /** One step along a suffix of `ts`: its head is ts[n], its tail the next suffix. */
  lemma SuffixStep<T>(ts: seq<T>, n: nat, x: T, rest: seq<T>)
    requires n < |ts| && ts[n..] == [x] + rest
    ensures ts[n] == x && rest == ts[n + 1..]
  {
    assert ts[n..][0] == ts[n];
    assert ts[n..][1..] == ts[n + 1..];
  }

  /**
   * One strtok_r call as the loop makes it: the argv entry it yields (the
   * token or NULL) and the save index afterwards.
   */
  method StrTok(s: string, save: nat) returns (entry: Option<string>, save': nat)
    requires save <= |s|
    ensures save' <= |s|
    ensures entry.None? ==> TokensFrom(s, save) == []
    ensures entry.Some? ==> TokensFrom(s, save) == [entry.value] + TokensFrom(s, save')
  {
    var reply := NextToken(s, save);
    match reply
    case None =>
      entry, save' := None, save;
    case Some((token, next)) =>
      entry, save' := Some(token), next;
  }

  /**
   * The argv loop of the POSIX spawn path, as written: it fills `params`
   * from index 0 and increments `numParams` without ever comparing it with
   * the array's size, so it stays in bounds only when the parameter string
   * has at most params.Length - 2 tokens.
   */
  method BuildArgv(execName: string, cmdParameters: string, params: array<Option<string>>)
    returns (numParams: nat)
    requires |Tokens(cmdParameters)| + 2 <= params.Length
    modifies params
    ensures numParams == |Tokens(cmdParameters)| + 1
    ensures params[..numParams + 1] == Argv(execName, cmdParameters)
    ensures params[numParams + 1..] == old(params[numParams + 1..])
  {
    ghost var ts := Tokens(cmdParameters);
    ghost var orig := params[..];
    var save: nat := 0;
    params[0] := Some(execName);
    assert params[..] == orig[0 := Some(execName)];
    LayoutStart(execName, ts, orig);
    numParams := 1;
    params[numParams], save := StrTok(cmdParameters, save);
    assert params[..] == orig[0 := Some(execName)][1 := params[1]];
    if params[numParams].Some? {
      SuffixStep(ts, 0, params[numParams].value, TokensFrom(cmdParameters, save));
    }
    LayoutStep(execName, ts, 0, orig, params[1]);
    while params[numParams] != None
      invariant 1 <= numParams <= |ts| + 1
      invariant save <= |cmdParameters|
      invariant params[..] == Layout(execName, ts, numParams, orig)
      invariant numParams <= |ts| ==> TokensFrom(cmdParameters, save) == ts[numParams..]
      decreases |ts| + 1 - numParams
    {
      ghost var before := params[..];
      numParams := numParams + 1;
      params[numParams], save := StrTok(cmdParameters, save);
      assert params[..] == before[numParams := params[numParams]];
      if params[numParams].Some? {
        SuffixStep(ts, numParams - 1, params[numParams].value, TokensFrom(cmdParameters, save));
      }
      LayoutStep(execName, ts, numParams - 1, orig, params[numParams]);
    }
    LayoutParts(execName, ts, numParams, orig);
  }

  /**
   * The same loop with the bound check the original lacks: it gives up,
   * reporting false, instead of writing past the end of `params`.
   */
  method BuildArgvChecked(execName: string, cmdParameters: string, params: array<Option<string>>)
    returns (ok: bool, numParams: nat)
    modifies params
    ensures ok <==> |Tokens(cmdParameters)| + 2 <= params.Length
    ensures ok ==> numParams == |Tokens(cmdParameters)| + 1
    ensures ok ==> params[..numParams + 1] == Argv(execName, cmdParameters)
    ensures ok ==> params[numParams + 1..] == old(params[numParams + 1..])
    ensures !ok && params.Length < 2 ==> params[..] == old(params[..])
    ensures !ok && 2 <= params.Length ==> numParams == params.Length - 1
    ensures !ok && 2 <= params.Length ==>
      params[..] == Layout(execName, Tokens(cmdParameters), params.Length - 1, old(params[..]))
  {
    ghost var ts := Tokens(cmdParameters);
    ghost var orig := params[..];
    numParams := 1;
    if params.Length < 2 {
      return false, numParams;
    }
    var save: nat := 0;
    params[0] := Some(execName);
    assert params[..] == orig[0 := Some(execName)];
    LayoutStart(execName, ts, orig);
    params[numParams], save := StrTok(cmdParameters, save);
    assert params[..] == orig[0 := Some(execName)][1 := params[1]];
    if params[numParams].Some? {
      SuffixStep(ts, 0, params[numParams].value, TokensFrom(cmdParameters, save));
    }
    LayoutStep(execName, ts, 0, orig, params[1]);
    while params[numParams] != None
      invariant 1 <= numParams <= |ts| + 1
      invariant numParams < params.Length
      invariant save <= |cmdParameters|
      invariant params[..] == Layout(execName, ts, numParams, orig)
      invariant numParams <= |ts| ==> TokensFrom(cmdParameters, save) == ts[numParams..]
      decreases |ts| + 1 - numParams
    {
      if numParams + 1 == params.Length {
        return false, numParams;
      }
      ghost var before := params[..];
      numParams := numParams + 1;
      params[numParams], save := StrTok(cmdParameters, save);
      assert params[..] == before[numParams := params[numParams]];
      if params[numParams].Some? {
        SuffixStep(ts, numParams - 1, params[numParams].value, TokensFrom(cmdParameters, save));
      }
      LayoutStep(execName, ts, numParams - 1, orig, params[numParams]);
    }
    LayoutParts(execName, ts, numParams, orig);
    ok := true;
  }

  /** argv has exactly one entry per slot the loop writes: tokens + 2. */
  lemma ArgvShape(execName: string, cmdParameters: string)
    ensures |Argv(execName, cmdParameters)| == |Tokens(cmdParameters)| + 2
    ensures Argv(execName, cmdParameters)[0] == Some(execName)
    ensures Argv(execName, cmdParameters)[|Tokens(cmdParameters)| + 1] == None
    ensures forall i :: 1 <= i <= |Tokens(cmdParameters)| ==>
      Argv(execName, cmdParameters)[i] == Some(Tokens(cmdParameters)[i - 1])
  {
  }

  /** A blank parameter string gives just the executable name and NULL. */
  lemma BlankArgv(execName: string, cmdParameters: string)
    requires forall k :: 0 <= k < |cmdParameters| ==> cmdParameters[k] == Delimiter
    ensures Argv(execName, cmdParameters) == [Some(execName), None]
  {
    NoTokensIffBlank(cmdParameters);
  }

  /**
   * 1023 one-letter words need 1025 argv slots, one more than `params`
   * holds: the unchecked loop writes past its end.
   */
  lemma ArgvOverflowWitness()
    ensures |Tokens(Join(seq(1023, _ => "a")))| == 1023
    ensures |Argv("a", Join(seq(1023, _ => "a")))| == ParamsCapacity + 1
    ensures !(|Tokens(Join(seq(1023, _ => "a")))| + 2 <= ParamsCapacity)
  {
    var ws := seq(1023, _ => "a");
    TokensOfJoin(ws);
  }
}
