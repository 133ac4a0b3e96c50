/** A value that may be missing; stands for a Java reference that may be `null`. */
module Options {
  datatype Option<+T> = None | Some(value: T)
}

/**
  Decoding of Spark application names. A job started for a pipeline is named
  `<prefix><id with '-' written as '_'><suffix>`, where the suffix is `_draft`
  for a draft run and `_public` for a published run, and the id is 36
  characters long (a UUID).
 */
module Names {
  import opened Options

  /** The two deployable variants of a pipeline. */
  datatype Variant = Draft | Public

  const DraftSuffix: string := "_draft"
  const PublicSuffix: string := "_public"

  /** Length of the pipeline identifier embedded in a job name. */
  const IdLength: int := 36

  /** Fewest characters that must precede the identifier in a job name. */
  const MinPrefix: int := 2

  function Suffix(v: Variant): string {
    match v
    case Draft => DraftSuffix
    case Public => PublicSuffix
  }

  /** True when `t` occurs in `s` starting at index `k`. */
  predicate OccursAt(s: string, t: string, k: int) {
    0 <= k && k + |t| <= |s| && s[k..k + |t|] == t
  }

  /** True when `t` is a suffix of `s`. */
  predicate IsSuffix(t: string, s: string) {
    |t| <= |s| && s[|s| - |t|..] == t
  }

  /** Searches for `t` in `s` at start positions `k`, `k - 1`, ..., `0`; -1 when none matches. */
  function LastFrom(s: string, t: string, k: int): (r: int)
    requires k <= |s| - |t|
    ensures r == -1 || 0 <= r <= k
    decreases k + 1
  {
    if k < 0 then -1
    else if s[k..k + |t|] == t then k
    else LastFrom(s, t, k - 1)
  }

  /** `LastFrom` finds the greatest start index at most `k` where `t` occurs. */
  lemma {:induction false} LastFromFindsLast(s: string, t: string, k: int)
    requires -1 <= k <= |s| - |t|
    ensures -1 <= LastFrom(s, t, k) <= k
    ensures LastFrom(s, t, k) >= 0 ==> OccursAt(s, t, LastFrom(s, t, k))
    ensures forall j :: LastFrom(s, t, k) < j <= k ==> !OccursAt(s, t, j)
    decreases k + 1
  {
    if k >= 0 && s[k..k + |t|] != t {
      LastFromFindsLast(s, t, k - 1);
    }
  }

  /**
    Java's `String.lastIndexOf(String)`: the greatest start index of an
    occurrence of `t` in `s` (the empty string occurs at `|s|`), or -1 when
    there is none.
   */
  function LastIndexOf(s: string, t: string): (r: int)
    ensures r == -1 || 0 <= r <= |s| - |t|
  {
    if |t| > |s| then -1 else LastFrom(s, t, |s| - |t|)
  }

  /** `LastIndexOf` is -1 or an occurrence, and no occurrence starts after it. */
  lemma LastIndexOfIsLast(s: string, t: string)
    ensures LastIndexOf(s, t) == -1 || OccursAt(s, t, LastIndexOf(s, t))
    ensures forall j :: LastIndexOf(s, t) < j ==> !OccursAt(s, t, j)
  {
    if |t| <= |s| {
      LastFromFindsLast(s, t, |s| - |t|);
    }
  }

  /** `endsWith` of the report tool: compares the last occurrence with `|s| - |t|`. */
  function EndsWith(s: string, t: string): (r: bool)
    ensures r ==> |t| <= |s| + 1
  {
    LastIndexOf(s, t) == |s| - |t|
  }

  /**
    `EndsWith` is a suffix test, except that it also holds when `s` is exactly
    one character shorter than `t`: then there is no occurrence, and the -1
    returned for that equals `|s| - |t|`.
   */
  lemma EndsWithCharacterization(s: string, t: string)
    ensures EndsWith(s, t) <==> IsSuffix(t, s) || |s| + 1 == |t|
  {
    LastIndexOfIsLast(s, t);
    var r := LastIndexOf(s, t);
    if IsSuffix(t, s) {
      assert OccursAt(s, t, |s| - |t|);
    }
    if r == |s| - |t| && r >= 0 {
      assert OccursAt(s, t, r);
    }
  }

  /** A needle two or more characters longer than the haystack is never matched. */
  lemma EndsWithTooShort(s: string, t: string)
    requires |s| + 1 < |t|
    ensures !EndsWith(s, t)
  {
    EndsWithCharacterization(s, t);
  }

  /**
    Both `EndsWith` tests of `updatePipe` hold only for the name `_draft`
    itself: it is a true `_draft` suffix and one character shorter than
    `_public`. `GetId` rejects that name, so no job reaches the
    `else if` of the record update with both tests true.
   */
  lemma BothFlagsOnlyForDraftSuffix(name: string)
    ensures EndsWith(name, DraftSuffix) && EndsWith(name, PublicSuffix) <==> name == DraftSuffix
    ensures EndsWith(name, DraftSuffix) && EndsWith(name, PublicSuffix) ==> GetId(name).None?
  {
    EndsWithCharacterization(name, DraftSuffix);
    EndsWithCharacterization(name, PublicSuffix);
    SuffixesExclusive(name);
    if IsSuffix(DraftSuffix, name) && |name| == |DraftSuffix| {
      assert name == name[|name| - |DraftSuffix|..];
    }
  }

  /** Java's `String.replace(char, char)`: every `from` becomes `to`. */
  function ReplaceChar(s: string, from: char, to: char): (r: string)
    ensures |r| == |s|
    ensures forall i :: 0 <= i < |s| ==> r[i] == (if s[i] == from then to else s[i])
  {
    if s == [] then []
    else [if s[0] == from then to else s[0]] + ReplaceChar(s[1..], from, to)
  }

  /** The variant a job name announces by its true suffix, if any. */
  function NameVariant(name: string): Option<Variant> {
    if IsSuffix(DraftSuffix, name) then Some(Draft)
    else if IsSuffix(PublicSuffix, name) then Some(Public)
    else None
  }

  /** No name ends with both suffixes: their last characters differ. */
  lemma SuffixesExclusive(name: string)
    ensures IsSuffix(DraftSuffix, name) ==> !IsSuffix(PublicSuffix, name)
  {
    if IsSuffix(DraftSuffix, name) {
      assert name[|name| - 1] == DraftSuffix[5];
    }
  }

  /** Shortest job name of the given variant from which an id can be taken. */
  function MinNameLength(v: Variant): int {
    MinPrefix + IdLength + |Suffix(v)|
  }

  /** Start of the identifier span in a name with the given variant's suffix. */
  function IdStart(name: string, v: Variant): int {
    |name| - |Suffix(v)| - IdLength
  }

  /**
    The id span of `getId` for a suffix of length `suffixLen`: the 36
    characters in front of it with `_` turned into `-`, or `None` when fewer
    than two characters precede them.
   */
  function IdBefore(name: string, suffixLen: nat): (r: Option<string>)
    ensures r.Some? <==> |name| >= MinPrefix + IdLength + suffixLen
    ensures r.Some? ==> |r.value| == IdLength && '_' !in r.value
    ensures r.Some? ==>
      var b := |name| - suffixLen - IdLength;
      r.value == ReplaceChar(name[b..b + IdLength], '_', '-')
  {
    var beginIndex := |name| - suffixLen - IdLength;
    if beginIndex < MinPrefix then None
    else Some(ReplaceChar(name[beginIndex..beginIndex + IdLength], '_', '-'))
  }

  /**
    `getId`: the pipeline identifier embedded in a job name, with `_` turned
    back into `-`; `None` when the name carries neither suffix or is too short.
    The `_draft` test comes first.
   */
  function GetId(name: string): (r: Option<string>)
    ensures r.Some? <==> NameVariant(name).Some? && |name| >= MinNameLength(NameVariant(name).value)
    ensures r.Some? ==> |r.value| == IdLength && '_' !in r.value
    ensures r.Some? ==>
      var b := IdStart(name, NameVariant(name).value);
      MinPrefix <= b && r.value == ReplaceChar(name[b..b + IdLength], '_', '-')
  {
    if EndsWith(name, DraftSuffix) then
      EndsWithCharacterization(name, DraftSuffix);
      IdBefore(name, 6)
    else if EndsWith(name, PublicSuffix) then
      EndsWithCharacterization(name, DraftSuffix);
      EndsWithCharacterization(name, PublicSuffix);
      IdBefore(name, 7)
    else
      EndsWithCharacterization(name, DraftSuffix);
      EndsWithCharacterization(name, PublicSuffix);
      None
  }

  /**
    On a name that yields an id, the `EndsWith` tests of `updatePipe` are
    true suffix tests and pick out the variant the name announces.
   */
  lemma EndsWithOnIdName(name: string)
    requires GetId(name).Some?
    ensures EndsWith(name, DraftSuffix) <==> NameVariant(name) == Some(Draft)
    ensures EndsWith(name, PublicSuffix) <==> NameVariant(name) == Some(Public)
  {
    EndsWithCharacterization(name, DraftSuffix);
    EndsWithCharacterization(name, PublicSuffix);
    SuffixesExclusive(name);
  }

  /**
    `name` is the scheduler's name for a run of variant `v` of the pipeline
    `id`: it ends with the variant's suffix, at least two characters precede
    the 36 in front of the suffix, and those 36 read as `id` once every `_`
    is turned into `-`.
   */
  predicate Encodes(name: string, id: string, v: Variant) {
    && IsSuffix(Suffix(v), name)
    && |name| >= MinNameLength(v)
    && ReplaceChar(name[IdStart(name, v)..IdStart(name, v) + IdLength], '_', '-') == id
  }

  /** `getId` together with the suffix test recovers exactly the id and variant a name encodes. */
  lemma GetIdFindsEncoded(name: string, id: string, v: Variant)
    ensures GetId(name) == Some(id) && NameVariant(name) == Some(v) <==> Encodes(name, id, v)
  {
    SuffixesExclusive(name);
  }

  /** The job name the scheduler uses for a pipeline id: `-` written as `_`. */
  function JobName(prefix: string, id: string, v: Variant): string {
    prefix + ReplaceChar(id, '-', '_') + Suffix(v)
  }

  lemma SuffixOfJoin(prefix: string, mid: string, v: Variant)
    ensures NameVariant(prefix + mid + Suffix(v)) == Some(v)
  {
    var name := prefix + mid + Suffix(v);
    assert name[|name| - |Suffix(v)|..] == Suffix(v);
    if v == Public {
      assert name[|name| - 1] == 'c';
    }
  }

  /**
    The identifier is read from the 36 characters in front of the suffix,
    whatever the (at least two) characters before them are.
   */
  lemma {:induction false} GetIdOfSpan(prefix: string, mid: string, v: Variant)
    requires |prefix| >= MinPrefix && |mid| == IdLength
    ensures GetId(prefix + mid + Suffix(v)) == Some(ReplaceChar(mid, '_', '-'))
  {
    var name := prefix + mid + Suffix(v);
    SuffixOfJoin(prefix, mid, v);
    var b := IdStart(name, v);
    assert b == |prefix|;
    assert name[b..b + IdLength] == mid;
  }

  /** Changing `_` back to `-` undoes writing `-` as `_` on a string without `_`. */
  lemma {:induction false} ReplaceRoundTrip(id: string)
    requires '_' !in id
    ensures ReplaceChar(ReplaceChar(id, '-', '_'), '_', '-') == id
  {
    var u := ReplaceChar(id, '-', '_');
    var r := ReplaceChar(u, '_', '-');
    assert |r| == |id|;
    forall i | 0 <= i < |id|
      ensures r[i] == id[i]
    {
      assert id[i] != '_';
    }
  }

  /** Round trip: the scheduler's job name for a UUID-shaped id decodes to that id. */
  lemma GetIdOfJobName(prefix: string, id: string, v: Variant)
    requires |prefix| >= MinPrefix && |id| == IdLength && '_' !in id
    ensures GetId(JobName(prefix, id, v)) == Some(id)
    ensures NameVariant(JobName(prefix, id, v)) == Some(v)
  {
    GetIdOfSpan(prefix, ReplaceChar(id, '-', '_'), v);
    ReplaceRoundTrip(id);
    SuffixOfJoin(prefix, ReplaceChar(id, '-', '_'), v);
  }
}
