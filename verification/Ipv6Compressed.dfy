/** Compressing IPv6 text that was not printed. */
module Ipv6Compressed {
  // `compressIPv6` of packages/wire/src/ipv6.ts takes any text. Which of the texts that
  // `serializeIPv6Address` reads still stand for the same address once they are compressed?

  import opened Options
  import opened Bytes
  import opened Text
  import opened Ipv6Text

  // ---------------------------------------------------------------- texts as lists of groups

  /** An empty group between two colons. */
  predicate Gap(groups: seq<string>, i: int) {
    0 < i < |groups| - 1 && groups[i] == ""
  }

  /** The place of `::`, if there is one, and there is no other. */
  ghost predicate GapAt(groups: seq<string>, gap: Option<nat>) {
    if gap.None? then forall j :: !Gap(groups, j)
    else Gap(groups, gap.value) && forall j :: Gap(groups, j) ==> j == gap.value || j == gap.value + 1
  }

  /** The groups with the zeros that `::` stands for. */
  function Filled(groups: seq<string>, gap: Option<nat>): seq<string>
    requires gap.Some? ==> gap.value < |groups| <= 9
  {
    if gap.None? then groups else groups[..gap.value] + Zeros(9 - |groups|) + groups[gap.value + 1..]
  }

  lemma {:induction false} NoGapNoDouble(groups: seq<string>)
    requires groups != [] && AllFree(groups, ':') && forall j :: !Gap(groups, j)
    ensures NoDouble(Join(groups, ':'))
    ensures |groups| > 1 && groups[0] != "" ==> Join(groups, ':')[0] != ':'
  {
    if |groups| > 1 {
      var rest := groups[1..];
      assert Free(groups[0], ':');
      forall j ensures !Gap(rest, j) {
        assert !Gap(groups, j + 1);
      }
      NoGapNoDouble(rest);
      assert !Gap(groups, 1);
      assert Free(rest[0], ':');
      JoinsNoDouble(groups[0], Join(rest, ':'));
    } else {
      assert Free(groups[0], ':');
    }
  }

  lemma JoinsNoDouble(first: string, rest: string)
    requires Free(first, ':') && NoDouble(rest) && (rest != "" ==> rest[0] != ':')
    ensures NoDouble(first + ":" + rest)
  {
  }

  lemma EndsPlain(groups: seq<string>)
    requires groups != [] && AllFree(groups, ':') && (|groups| == 1 || groups[|groups| - 1] != "")
    ensures var s := Join(groups, ':'); s == "" || s[|s| - 1] != ':'
  {
    var last := groups[|groups| - 1];
    assert Free(last, ':');
    if |groups| > 1 {
      JoinAppend(groups[..|groups| - 1], [last], ':');
      assert groups == groups[..|groups| - 1] + [last];
    }
  }

  lemma DoubleAlone(groups: seq<string>)
    requires groups != [] && AllFree(groups, ':') && forall j :: !Gap(groups, j)
    ensures SplitDouble(Join(groups, ':')) == [Join(groups, ':')]
  {
    NoGapNoDouble(groups);
    NoDoubleAlone(Join(groups, ':'));
  }

  lemma {:induction false} NoDoubleAlone(s: string)
    requires NoDouble(s)
    ensures SplitDouble(s) == [s]
  {
    if |s| >= 2 {
      forall i | 0 <= i < |s[1..]| - 1 ensures !(s[1..][i] == ':' && s[1..][i + 1] == ':') {
        assert !(s[i + 1] == ':' && s[i + 2] == ':');
      }
      NoDoubleAlone(s[1..]);
      assert [s[0]] + s[1..] == s;
    }
  }

  /** The text is split at its first gap. */
  lemma DoubleAtGap(groups: seq<string>, i: nat)
    requires AllFree(groups, ':') && Gap(groups, i) && forall j :: j < i ==> !Gap(groups, j)
    ensures SplitDouble(Join(groups, ':')) == [Join(groups[..i], ':')] + SplitDouble(Join(groups[i + 1..], ':'))
  {
    var left, right := groups[..i], groups[i + 1..];
    assert groups == left + [""] + right;
    JoinAroundZeros(left, right);
    forall j ensures !Gap(left, j) {
      assert Gap(left, j) ==> Gap(groups, j);
    }
    NoGapNoDouble(left);
    assert i > 1 ==> !Gap(groups, i - 1);
    EndsPlain(left);
    SplitDoubleAt(Join(left, ':'), Join(right, ':'));
  }

  lemma FirstGap(groups: seq<string>, i: nat) returns (first: nat)
    requires Gap(groups, i)
    ensures first <= i && Gap(groups, first) && forall j :: j < first ==> !Gap(groups, j)
    decreases i
  {
    if j: nat :| j < i && Gap(groups, j) {
      first := FirstGap(groups, j);
    } else {
      first := i;
      forall j | j < first ensures !Gap(groups, j) {
        assert Gap(groups, j) ==> j > 0;
      }
    }
  }

  /** Two places of `::` make a text unreadable. */
  lemma TwoGaps(groups: seq<string>, i: nat, j: nat)
    requires AllFree(groups, ':') && Gap(groups, i) && Gap(groups, j) && i + 2 <= j
    ensures AllGroups(Join(groups, ':')) == None
  {
    var first := FirstGap(groups, i);
    DoubleAtGap(groups, first);
    var right := groups[first + 1..];
    assert Gap(right, j - first - 1);
    var second := FirstGap(right, j - first - 1);
    DoubleAtGap(right, second);
    TwoHalvesMore(Join(groups[..first], ':'), Join(right[..second], ':'), SplitDouble(Join(right[second + 1..], ':')));
  }

  lemma TwoHalvesMore(a: string, b: string, rest: seq<string>)
    requires rest != []
    ensures |[a] + ([b] + rest)| > 2
  {
  }

  lemma NoGapGroups(groups: seq<string>)
    requires groups != [] && groups != [""] && AllFree(groups, ':') && forall j :: !Gap(groups, j)
    ensures AllGroups(Join(groups, ':')) == Some(groups)
  {
    DoubleAlone(groups);
    SplitJoin(groups, ':');
    assert Split("", ':') == [""];
  }

  lemma OneGapGroups(groups: seq<string>, i: nat)
    requires AllFree(groups, ':') && GapAt(groups, Some(i))
    ensures AllGroups(Join(groups, ':')) == if |groups| > 9 then None else Some(Filled(groups, Some(i)))
  {
    HalvesAtGap(groups, i, groups[..i], groups[i + 1..]);
    TextOfHalves(Join(groups, ':'), groups, i);
  }

  lemma TextOfHalves(ip: string, groups: seq<string>, i: nat)
    requires 0 < i < |groups| - 1 && AllFree(groups[..i], ':') && AllFree(groups[i + 1..], ':')
    requires ip != "" && SplitDouble(ip) == [Join(groups[..i], ':'), Join(groups[i + 1..], ':')]
    ensures AllGroups(ip) == if |groups| > 9 then None else Some(Filled(groups, Some(i)))
  {
    var left, right := groups[..i], groups[i + 1..];
    SplitJoin(left, ':');
    SplitJoin(right, ':');
    HalvesGroups(ip, Join(left, ':'), Join(right, ':'), left, right, |groups|);
  }

  lemma HalvesAtGap(groups: seq<string>, i: nat, left: seq<string>, right: seq<string>)
    requires AllFree(groups, ':') && GapAt(groups, Some(i)) && left == groups[..i] && right == groups[i + 1..]
    ensures Join(groups, ':') != "" && SplitDouble(Join(groups, ':')) == [Join(left, ':'), Join(right, ':')]
    ensures AllFree(left, ':') && AllFree(right, ':')
  {
    DoubleAtGap(groups, i);
    forall j ensures !Gap(right, j) {
      assert Gap(right, j) ==> Gap(groups, i + 1 + j);
    }
    forall j | 0 <= j < |right| ensures Free(right[j], ':') {
      assert Free(groups[i + 1 + j], ':');
    }
    DoubleAlone(right);
    assert groups == left + [""] + right;
    JoinAroundZeros(left, right);
  }

  lemma HalvesGroups(ip: string, left: string, right: string, l: seq<string>, r: seq<string>, n: nat)
    requires ip != "" && SplitDouble(ip) == [left, right] && Split(left, ':') == l && Split(right, ':') == r
    requires n == |l| + |r| + 1
    ensures AllGroups(ip) == if n > 9 then None else Some(l + Zeros(9 - n) + r)
  {
    var zeros: nat := if n > 9 then 0 else 9 - n;
    assert n <= 9 ==> 8 - (|l| + |r|) == zeros;
  }

  /** What a text is read as, in terms of its groups. */
  lemma GroupsAt(groups: seq<string>, gap: Option<nat>)
    requires groups != [] && groups != [""] && AllFree(groups, ':') && GapAt(groups, gap)
    ensures AllGroups(Join(groups, ':')) == if gap.Some? && |groups| > 9 then None else Some(Filled(groups, gap))
  {
    if gap.None? {
      NoGapGroups(groups);
    } else {
      OneGapGroups(groups, gap.value);
    }
  }

  lemma GapOf(groups: seq<string>) returns (gap: Option<nat>)
    requires AllFree(groups, ':') && AllGroups(Join(groups, ':')).Some?
    ensures GapAt(groups, gap)
  {
    if i: nat :| Gap(groups, i) {
      var first := FirstGap(groups, i);
      forall j | Gap(groups, j) ensures j == first || j == first + 1 {
        if j >= first + 2 {
          TwoGaps(groups, first, j);
        }
      }
      return Some(first);
    }
    return None;
  }

  // ---------------------------------------------------------------- reading

  lemma {:induction false} PadKeeps(s: string)
    ensures Free(s, ':') <==> Free(Pad(s), ':')
    ensures Number(Pad(s), 16) == Number(s, 16)
    ensures |Pad(s)| == if |s| < 4 then 4 else |s|
    decreases 4 - |s|
  {
    if |s| < 4 {
      NumberOfPadded(s);
      PadKeeps("0" + s);
      assert Free("0" + s, ':') <==> Free(s, ':') by {
        if Free("0" + s, ':') {
          forall i | 0 <= i < |s| ensures s[i] != ':' {
            assert ("0" + s)[i + 1] == s[i];
          }
        }
      }
    }
  }

  /** A group is at most four digits of its number. */
  lemma MeansIff(s: string, g: Group)
    ensures Means(s, g) <==> Free(s, ':') && |s| <= 4 && Number(s, 16) == Some(g)
  {
    PadKeeps(s);
  }

  lemma {:induction false} MeaningOfPadded(groups: seq<string>, v: seq<Group>)
    requires AllFree(PadAll(groups), ':') && GroupValues(PadAll(groups)) == Some(v)
    ensures AllMean(groups, v)
  {
    if groups != [] {
      var rest := GroupValues(PadAll(groups[1..])).value;
      assert PadAll(groups)[1..] == PadAll(groups[1..]);
      forall i | 0 <= i < |groups[1..]| ensures Free(PadAll(groups[1..])[i], ':') {
        assert Free(PadAll(groups)[i + 1], ':');
      }
      MeaningOfPadded(groups[1..], rest);
      assert Free(PadAll(groups)[0], ':');
      assert v == [v[0]] + rest;
      forall i | 0 <= i < |v| ensures Means(groups[i], v[i]) {
        assert i > 0 ==> Means(groups[1..][i - 1], rest[i - 1]);
      }
    }
  }

  lemma {:induction false} PadAllFree(groups: seq<string>)
    requires AllFree(groups, ':')
    ensures AllFree(PadAll(groups), ':')
  {
    if groups != [] {
      assert Free(groups[0], ':');
      PadKeeps(groups[0]);
      assert AllFree(groups[1..], ':');
      PadAllFree(groups[1..]);
    }
  }

  /** What a text is read as depends on its groups only. */
  lemma SerializeIs(ip: string, groups: seq<string>)
    requires AllGroups(ip) == Some(groups) && groups != [] && AllFree(groups, ':')
    ensures var v := GroupValues(PadAll(groups));
      Serialize(ip) == if |groups| != 8 || v.None? then None else Some(ToBytes(v.value))
  {
    PadAllFree(groups);
    SplitJoin(PadAll(groups), ':');
  }

  lemma MeaningSerializes(ip: string, groups: seq<string>, v: seq<Group>)
    requires AllGroups(ip) == Some(groups) && |v| == 8 && AllMean(groups, v) && AllFree(groups, ':')
    ensures Serialize(ip) == Some(ToBytes(v))
  {
    GroupValuesOfPadded(groups, v);
    SerializeIs(ip, groups);
  }

  lemma FilledFree(groups: seq<string>, gap: Option<nat>)
    requires AllFree(groups, ':') && (gap.Some? ==> gap.value < |groups| <= 9)
    ensures AllFree(Filled(groups, gap), ':')
  {
    if gap.Some? {
      var f := Filled(groups, gap);
      forall i | 0 <= i < |f| ensures Free(f[i], ':') {
        if i < gap.value {
          assert f[i] == groups[i];
        } else if i >= gap.value + 9 - |groups| {
          assert f[i] == groups[i - (9 - |groups|) + 1];
        }
      }
    }
  }

  /** A readable text: its groups, the place of its `::`, and the numbers of the address. */
  ghost predicate Reads(groups: seq<string>, gap: Option<nat>, v: seq<Group>) {
    && AllFree(groups, ':') && GapAt(groups, gap) && |v| == 8
    && (gap.Some? ==> gap.value < |groups| <= 9)
    && AllMean(Filled(groups, gap), v)
  }

  lemma ReadsSerialized(groups: seq<string>, gap: Option<nat>, v: seq<Group>)
    requires Reads(groups, gap, v)
    ensures Serialize(Join(groups, ':')) == Some(ToBytes(v))
  {
    GroupsAt(groups, gap);
    FilledFree(groups, gap);
    MeaningSerializes(Join(groups, ':'), Filled(groups, gap), v);
  }

  lemma SerializedReads(ip: string) returns (gap: Option<nat>, v: seq<Group>)
    requires Serialize(ip).Some?
    ensures Reads(Split(ip, ':'), gap, v) && Serialize(ip) == Some(ToBytes(v))
  {
    var groups := Split(ip, ':');
    JoinSplit(ip, ':');
    gap := GapOf(groups);
    assert groups != [""];
    GroupsAt(groups, gap);
    FilledFree(groups, gap);
    SerializeIs(ip, Filled(groups, gap));
    PadAllFree(Filled(groups, gap));
    v := GroupValues(PadAll(Filled(groups, gap))).value;
    MeaningOfPadded(Filled(groups, gap), v);
  }

  // ---------------------------------------------------------------- normal groups

  lemma {:induction false} ToLowerAt(s: string, i: nat)
    requires i < |s|
    ensures ToLower(s)[i] == ToLower([s[i]])[0]
    ensures HexValue(ToLower(s)[i]) == HexValue(s[i]) && (ToLower(s)[i] == ':' <==> s[i] == ':')
  {
    assert [s[i]][1..] == "";
    if i > 0 {
      ToLowerAt(s[1..], i - 1);
    }
  }

  lemma ToLowerPrefix(s: string, n: nat)
    requires n <= |s|
    ensures ToLower(s)[..n] == ToLower(s[..n])
  {
    forall i | 0 <= i < n ensures ToLower(s)[i] == ToLower(s[..n])[i] {
      ToLowerAt(s, i);
      ToLowerAt(s[..n], i);
    }
  }

  lemma {:induction false} NumberOfLower(s: string)
    ensures Number(ToLower(s), 16) == Number(s, 16)
  {
    if s != "" {
      ToLowerPrefix(s, |s| - 1);
      ToLowerAt(s, |s| - 1);
      NumberOfLower(s[..|s| - 1]);
    }
  }

  lemma {:induction false} StripKeeps(s: string)
    ensures Number(StripZeros(s), 16) == Number(s, 16) && |StripZeros(s)| <= |s|
    ensures (s == "" <==> StripZeros(s) == "") && (Free(s, ':') ==> Free(StripZeros(s), ':'))
  {
    if |s| >= 2 && s[0] == '0' && IsWord(s[1]) {
      StripKeeps(s[1..]);
      NumberOfPadded(s[1..]);
      assert "0" + s[1..] == s;
    }
  }

  function NormalGroup(s: string): string {
    StripZeros(ToLower(s))
  }

  lemma NormalGroupKeeps(s: string)
    ensures Free(s, ':') ==> Free(NormalGroup(s), ':')
    ensures s == "" <==> NormalGroup(s) == ""
    ensures forall g :: Means(s, g) ==> Means(NormalGroup(s), g)
  {
    if Free(s, ':') {
      forall i | 0 <= i < |s| ensures ToLower(s)[i] != ':' {
        ToLowerAt(s, i);
      }
    }
    StripKeeps(ToLower(s));
    NumberOfLower(s);
    forall g | Means(s, g) ensures Means(NormalGroup(s), g) {
      MeansIff(s, g);
      MeansIff(NormalGroup(s), g);
    }
  }

  lemma LowerCons(c: char, s: string)
    ensures ToLower([c] + s) == [ToLower([c])[0]] + ToLower(s)
  {
    assert ([c] + s)[1..] == s && [c][1..] == "";
  }

  function LowerAll(parts: seq<string>): (r: seq<string>)
    ensures |r| == |parts| && forall i :: 0 <= i < |parts| ==> r[i] == ToLower(parts[i])
  {
    if parts == [] then [] else [ToLower(parts[0])] + LowerAll(parts[1..])
  }

  lemma SplitCons(c: char, s: string, rest: seq<string>)
    requires Split(s, ':') == rest
    ensures Split([c] + s, ':') == if c == ':' then [""] + rest else [[c] + rest[0]] + rest[1..]
  {
    assert ([c] + s)[1..] == s;
  }

  lemma {:induction false} LowerSplits(s: string)
    ensures Split(ToLower(s), ':') == LowerAll(Split(s, ':'))
  {
    if s != "" {
      var rest := Split(s[1..], ':');
      var c := ToLower([s[0]])[0];
      ToLowerAt(s, 0);
      LowerSplits(s[1..]);
      LowerCons(s[0], s[1..]);
      assert [s[0]] + s[1..] == s;
      SplitCons(c, ToLower(s[1..]), LowerAll(rest));
      LowerCons(s[0], rest[0]);
    }
  }

  lemma {:induction false} NormalizeAt(groups: seq<string>, i: nat)
    requires i < |groups|
    ensures Normalize(groups)[i] == StripZeros(groups[i])
  {
    if i > 0 {
      NormalizeAt(groups[1..], i - 1);
    }
  }

  /** The groups that `compressIPv6` works on. */
  function NormalGroups(ip: string): seq<string> {
    Normalize(Split(ToLower(ip), ':'))
  }

  lemma NormalGroupsAt(ip: string)
    ensures |NormalGroups(ip)| == |Split(ip, ':')|
    ensures forall i :: 0 <= i < |NormalGroups(ip)| ==> NormalGroups(ip)[i] == NormalGroup(Split(ip, ':')[i])
  {
    LowerSplits(ip);
    forall i | 0 <= i < |NormalGroups(ip)| ensures NormalGroups(ip)[i] == NormalGroup(Split(ip, ':')[i]) {
      NormalizeAt(Split(ToLower(ip), ':'), i);
    }
  }

  /** Normal groups are read as the same address. */
  lemma NormalReads(groups: seq<string>, normal: seq<string>, gap: Option<nat>, v: seq<Group>)
    requires Reads(groups, gap, v) && |normal| == |groups|
    requires forall i :: 0 <= i < |groups| ==> normal[i] == NormalGroup(groups[i])
    ensures Reads(normal, gap, v)
  {
    forall i | 0 <= i < |groups| ensures Free(normal[i], ':') && (normal[i] == "" <==> groups[i] == "") {
      NormalGroupKeeps(groups[i]);
      assert Free(groups[i], ':');
    }
    forall j ensures Gap(normal, j) <==> Gap(groups, j) {
    }
    forall k | 0 <= k < 8 ensures Means(Filled(normal, gap)[k], v[k]) {
      assert Means(Filled(groups, gap)[k], v[k]);
      NormalFilledAt(groups, normal, gap, k);
      ZeroMeans();
    }
  }

  lemma NormalFilledAt(groups: seq<string>, normal: seq<string>, gap: Option<nat>, k: nat)
    requires |normal| == |groups| && (gap.Some? ==> gap.value < |groups| <= 9) && k < |Filled(groups, gap)|
    requires forall i :: 0 <= i < |groups| ==> normal[i] == NormalGroup(groups[i])
    ensures |Filled(normal, gap)| == |Filled(groups, gap)|
    ensures forall g :: Means(Filled(groups, gap)[k], g) ==> Means(Filled(normal, gap)[k], g)
  {
    if gap.None? {
      NormalGroupKeeps(groups[k]);
    } else if k < gap.value {
      assert Filled(normal, gap)[k] == normal[k] && Filled(groups, gap)[k] == groups[k];
      NormalGroupKeeps(groups[k]);
    } else if k < gap.value + (9 - |groups|) {
      assert Filled(normal, gap)[k] == "0000" && Filled(groups, gap)[k] == "0000";
    } else {
      var i := k - (9 - |groups|) + 1;
      assert Filled(normal, gap)[k] == normal[i] && Filled(groups, gap)[k] == groups[i];
      NormalGroupKeeps(groups[i]);
    }
  }

  // ---------------------------------------------------------------- the run that is cut out

  lemma {:induction false} RunBeforeAtLeast(groups: seq<string>, k: nat, n: nat)
    requires n <= k <= |groups| && forall i :: k - n <= i < k ==> IsZero(groups[i])
    ensures RunBefore(groups, k) >= n
  {
    if n > 0 {
      RunBeforeAtLeast(groups, k - 1, n - 1);
    }
  }

  lemma {:induction false} RunBeforeIsZero(groups: seq<string>, k: nat)
    requires k <= |groups|
    ensures forall i :: k - RunBefore(groups, k) <= i < k ==> IsZero(groups[i])
  {
    if k > 0 && IsZero(groups[k - 1]) {
      RunBeforeIsZero(groups, k - 1);
    }
  }

  lemma {:induction false} LongestIsRun(groups: seq<string>, k: nat, j: nat)
    requires j <= k <= |groups|
    ensures var (start, length) := LongestRun(groups, k);
      && (forall i :: start <= i < start + length ==> IsZero(groups[i]))
      && RunBefore(groups, j) <= length
  {
    if k > 0 {
      RunBeforeIsZero(groups, k);
      LongestIsRun(groups, k - 1, if j < k then j else k - 1);
    }
  }

  /** The run cannot be made longer. */
  ghost predicate Maximal(groups: seq<string>, start: nat, length: nat) {
    && length > 0 && start + length <= |groups|
    && (forall i :: start <= i < start + length ==> IsZero(groups[i]))
    && (start > 0 ==> !IsZero(groups[start - 1]))
    && (start + length < |groups| ==> !IsZero(groups[start + length]))
  }

  lemma LongestIsMaximal(groups: seq<string>)
    requires LongestRun(groups, |groups|).1 > 0
    ensures Maximal(groups, LongestRun(groups, |groups|).0, LongestRun(groups, |groups|).1)
  {
    LongestIsRun(groups, |groups|, 0);
    NotExtended(groups, LongestRun(groups, |groups|).0, LongestRun(groups, |groups|).1);
  }

  lemma NotExtended(groups: seq<string>, start: nat, length: nat)
    requires length == LongestRun(groups, |groups|).1 && start + length <= |groups|
    requires forall i :: start <= i < start + length ==> IsZero(groups[i])
    ensures start > 0 ==> !IsZero(groups[start - 1])
    ensures start + length < |groups| ==> !IsZero(groups[start + length])
  {
    if start > 0 && IsZero(groups[start - 1]) {
      NoLongerRun(groups, start - 1, length + 1);
    }
    if start + length < |groups| && IsZero(groups[start + length]) {
      NoLongerRun(groups, start, length + 1);
    }
  }

  lemma NoLongerRun(groups: seq<string>, s: nat, n: nat)
    requires s + n <= |groups| && forall i :: s <= i < s + n ==> IsZero(groups[i])
    ensures n <= LongestRun(groups, |groups|).1
  {
    RunBeforeAtLeast(groups, s + n, n);
    LongestIsRun(groups, |groups|, s + n);
  }

  // ---------------------------------------------------------------- when the address is kept

  /** What is left of the run and what is right of it stand at the two ends of the address, with zeros between them. */
  ghost predicate Ends(left: seq<string>, right: seq<string>, v: seq<Group>) {
    && |v| == 8 && |left| + |right| < 8
    && (forall k :: 0 <= k < |left| ==> Means(left[k], v[k]))
    && (forall k :: 0 <= k < |right| ==> Means(right[k], v[8 - |right| + k]))
    && (forall k :: |left| <= k < 8 - |right| ==> v[k] == 0)
  }

  lemma ZeroMeansZero(s: string, g: Group)
    requires IsZero(s) || s == "0000"
    requires Means(s, g)
    ensures g == 0
  {
    ZeroMeans();
    MeansIff("0", g);
    assert "0"[..0] == "" && Number("", 16) == Some(0);
    NumberOfPadded("");
    assert "0" + "" == "0";
  }

  lemma EndsOfRun(groups: seq<string>, gap: Option<nat>, v: seq<Group>, start: nat, length: nat)
    requires Reads(groups, gap, v) && length >= 2 && start + length <= |groups|
    requires forall i :: start <= i < start + length ==> IsZero(groups[i])
    requires gap.Some? ==> start <= gap.value < start + length
    ensures Ends(groups[..start], groups[start + length..], v)
  {
    var left, right := groups[..start], groups[start + length..];
    forall k: nat | k < |left| ensures Means(left[k], v[k]) {
      assert Means(Filled(groups, gap)[k], v[k]);
    }
    forall k: nat | k < |right| ensures Means(right[k], v[8 - |right| + k]) {
      ReadsBehind(groups, gap, v, start + length + k);
    }
    forall k: nat | |left| <= k < 8 - |right| ensures v[k] == 0 {
      ReadsWithin(groups, gap, v, start, length, k);
    }
  }

  lemma ReadsBehind(groups: seq<string>, gap: Option<nat>, v: seq<Group>, i: nat)
    requires Reads(groups, gap, v) && i < |groups| && (gap.Some? ==> gap.value < i)
    ensures 8 - |groups| + i >= 0 && Means(groups[i], v[8 - |groups| + i])
  {
    FilledBehind(groups, gap, i);
    assert Means(Filled(groups, gap)[8 - |groups| + i], v[8 - |groups| + i]);
  }

  lemma ReadsWithin(groups: seq<string>, gap: Option<nat>, v: seq<Group>, start: nat, length: nat, k: nat)
    requires Reads(groups, gap, v) && start + length <= |groups|
    requires forall i :: start <= i < start + length ==> IsZero(groups[i])
    requires gap.Some? ==> start <= gap.value < start + length
    requires start <= k < 8 - (|groups| - start - length)
    ensures v[k] == 0
  {
    FilledWithin(groups, gap, start, length, k);
    assert Means(Filled(groups, gap)[k], v[k]);
    ZeroMeansZero(Filled(groups, gap)[k], v[k]);
  }

  lemma FilledBehind(groups: seq<string>, gap: Option<nat>, i: nat)
    requires gap.Some? ==> gap.value < |groups| <= 9
    requires |Filled(groups, gap)| == 8 && i < |groups| && (gap.Some? ==> gap.value < i)
    ensures 8 - |groups| + i >= 0 && Filled(groups, gap)[8 - |groups| + i] == groups[i]
  {
    if gap.Some? {
      var back := groups[gap.value + 1..];
      assert back[i - gap.value - 1] == groups[i];
    }
  }

  lemma FilledWithin(groups: seq<string>, gap: Option<nat>, start: nat, length: nat, k: nat)
    requires gap.Some? ==> gap.value < |groups| <= 9
    requires |Filled(groups, gap)| == 8 && start + length <= |groups|
    requires forall i :: start <= i < start + length ==> IsZero(groups[i])
    requires gap.Some? ==> start <= gap.value < start + length
    requires start <= k < 8 - (|groups| - start - length)
    ensures IsZero(Filled(groups, gap)[k]) || Filled(groups, gap)[k] == "0000"
  {
    if gap.Some? {
      var i := k - (9 - |groups|) + 1;
      if k < gap.value {
        assert Filled(groups, gap)[k] == groups[k];
      } else if k >= gap.value + (9 - |groups|) {
        assert Filled(groups, gap)[k] == groups[i];
      }
    }
  }

  /** A side of `::`, which is never written as nothing. */
  function Side(groups: seq<string>): (r: seq<string>)
    ensures r != []
  {
    if groups == [] then [""] else groups
  }

  /** The list that is joined once the run is cut out. */
  lemma CutSides(groups: seq<string>, start: nat, length: nat)
    requires start + length <= |groups| && length < |groups|
    ensures CutRun(groups, start, length) == Side(groups[..start]) + [""] + Side(groups[start + length..])
  {
    CutIs(groups, start, length);
  }

  lemma SidesFree(left: seq<string>, right: seq<string>)
    requires AllFree(left, ':') && AllFree(right, ':')
    ensures AllFree(Side(left) + [""] + Side(right), ':')
  {
    var cut := Side(left) + [""] + Side(right);
    forall i | 0 <= i < |cut| ensures Free(cut[i], ':') {
      if i > |Side(left)| {
        assert cut[i] == Side(right)[i - |Side(left)| - 1];
      }
    }
  }

  lemma EndsRead(left: seq<string>, right: seq<string>, v: seq<Group>)
    requires Ends(left, right, v) && AllFree(left, ':') && AllFree(right, ':')
    requires GapAt(Side(left) + [""] + Side(right), Some(|Side(left)|))
    ensures Reads(Side(left) + [""] + Side(right), Some(|Side(left)|), v)
  {
    SidesFree(left, right);
    SidesFilled(Side(left), Side(right));
    ZeroMeans();
    SidesMeanEnds(Side(left), Side(right), v);
  }

  lemma SidesFilled(l: seq<string>, r: seq<string>)
    requires |l| + |r| <= 8 && r != []
    ensures Filled(l + [""] + r, Some(|l|)) == l + Zeros(8 - |l| - |r|) + r
  {
    var cut := l + [""] + r;
    assert cut[..|l|] == l && cut[|l| + 1..] == r;
  }

  lemma SidesMeanEnds(l: seq<string>, r: seq<string>, v: seq<Group>)
    requires |v| == 8 && |l| + |r| <= 8
    requires forall k :: 0 <= k < |l| ==> Means(l[k], v[k])
    requires forall k :: 0 <= k < |r| ==> Means(r[k], v[8 - |r| + k])
    requires forall k :: |l| <= k < 8 - |r| ==> v[k] == 0
    ensures AllMean(l + Zeros(8 - |l| - |r|) + r, v)
  {
    ZeroMeans();
    var f := l + Zeros(8 - |l| - |r|) + r;
    forall k | 0 <= k < 8 ensures Means(f[k], v[k]) {
      if k >= 8 - |r| {
        assert f[k] == r[k - (8 - |r|)];
      }
    }
  }

  /** Every gap of the list lies in the run. */
  ghost predicate GapsWithin(groups: seq<string>, start: nat, length: nat) {
    forall j :: Gap(groups, j) ==> start <= j < start + length
  }

  /** Once the run is cut out, the only gap is where it was. */
  lemma OneGapLeft(groups: seq<string>, start: nat, length: nat)
    requires Maximal(groups, start, length) && length < |groups| && GapsWithin(groups, start, length)
    ensures var left, right := groups[..start], groups[start + length..];
      GapAt(Side(left) + [""] + Side(right), Some(|Side(left)|))
  {
    var left, right := groups[..start], groups[start + length..];
    var cut, m := Side(left) + [""] + Side(right), |Side(left)|;
    forall j | Gap(cut, j) ensures j == m {
      if j < m {
        assert cut[j] == left[j];
        assert Gap(groups, j);
      } else if j > m {
        assert cut[j] == right[j - m - 1];
        assert Gap(groups, start + length + (j - m - 1));
      }
    }
  }

  /** A gap outside of the run is a second one. */
  lemma TwoGapsLeft(groups: seq<string>, start: nat, length: nat, j: nat)
    requires Maximal(groups, start, length) && length < |groups| && AllFree(groups, ':')
    requires Gap(groups, j) && !(start <= j < start + length)
    ensures AllGroups(Join(CutRun(groups, start, length), ':')) == None
  {
    CutSides(groups, start, length);
    RightFree(groups, start + length);
    GapBeside(groups, groups[..start], groups[start + length..], start, start + length, j);
  }

  lemma GapBeside(groups: seq<string>, left: seq<string>, right: seq<string>, start: nat, end: nat, j: nat)
    requires start < end <= |groups| && end - start < |groups| && left == groups[..start] && right == groups[end..]
    requires start > 0 ==> !IsZero(groups[start - 1])
    requires end < |groups| ==> !IsZero(groups[end])
    requires AllFree(left, ':') && AllFree(right, ':') && Gap(groups, j) && !(start <= j < end)
    ensures AllGroups(Join(Side(left) + [""] + Side(right), ':')) == None
  {
    SidesFree(left, right);
    if j < start {
      GapOnLeft(left, right, j);
    } else {
      GapOnRight(left, right, j - end);
    }
  }

  lemma RightFree(groups: seq<string>, i: nat)
    requires i <= |groups| && AllFree(groups, ':')
    ensures AllFree(groups[i..], ':')
  {
    forall k | 0 <= k < |groups[i..]| ensures Free(groups[i..][k], ':') {
      assert Free(groups[i + k], ':');
    }
  }

  lemma GapOnLeft(left: seq<string>, right: seq<string>, j: nat)
    requires 0 < j < |left| && left[j] == "" && left[|left| - 1] != ""
    requires AllFree(Side(left) + [""] + Side(right), ':')
    ensures AllGroups(Join(Side(left) + [""] + Side(right), ':')) == None
  {
    var cut := Side(left) + [""] + Side(right);
    assert cut[j] == left[j] && cut[|left|] == "";
    TwoGaps(cut, j, |left|);
  }

  lemma GapOnRight(left: seq<string>, right: seq<string>, j: nat)
    requires j < |right| - 1 && right[j] == "" && right[0] != ""
    requires AllFree(Side(left) + [""] + Side(right), ':')
    ensures AllGroups(Join(Side(left) + [""] + Side(right), ':')) == None
  {
    var cut, m := Side(left) + [""] + Side(right), |Side(left)|;
    assert cut[m] == "" && cut[m + 1 + j] == right[j];
    TwoGaps(cut, m, m + 1 + j);
  }

  lemma CutReads(groups: seq<string>, gap: Option<nat>, v: seq<Group>, start: nat, length: nat)
    requires Reads(groups, gap, v) && Maximal(groups, start, length) && 2 <= length < |groups|
    requires GapsWithin(groups, start, length)
    ensures Serialize(Join(CutRun(groups, start, length), ':')) == Some(ToBytes(v))
  {
    var left, right := groups[..start], groups[start + length..];
    EndsOfRun(groups, gap, v, start, length);
    OneGapLeft(groups, start, length);
    RightFree(groups, start + length);
    EndsRead(left, right, v);
    CutSides(groups, start, length);
    ReadsSerialized(CutRun(groups, start, length), Some(|Side(left)|), v);
  }

  lemma AllZeroReads(groups: seq<string>, gap: Option<nat>, v: seq<Group>)
    requires Reads(groups, gap, v) && forall i :: 0 <= i < |groups| ==> IsZero(groups[i])
    ensures Serialize("::") == Some(ToBytes(v))
  {
    forall k: nat | k < 8 ensures v[k] == 0 {
      ReadsWithin(groups, gap, v, 0, |groups|, k);
    }
    ZerosRead(v);
  }

  lemma ZerosRead(v: seq<Group>)
    requires ZeroRun(v, 0, 8) && |v| == 8
    ensures Serialize("::") == Some(ToBytes(v))
  {
    SerializeRecommended(v, 0, 8);
    AllCut(v);
  }

  lemma AllCut(v: seq<Group>)
    requires |v| == 8
    ensures Recommended(v, 0, 8) == "::"
  {
    assert v[..0] == [] && v[8..] == [];
    assert Hex(v[..0]) == [] && Hex(v[8..]) == [];
    assert Join([], ':') == "";
    assert Recommended(v, 0, 8) == "" + "::" + "";
  }

  /**
   What decides: either no run of two or more groups is zero or empty, or the first longest of these runs
   has all the empty groups that stand between two colons, so that its `::` is the only one.
   */
  ghost predicate OneDouble(groups: seq<string>) {
    LongestRun(groups, |groups|).1 < 2 ||
      GapsWithin(groups, LongestRun(groups, |groups|).0, LongestRun(groups, |groups|).1)
  }

  lemma CutReadsIff(groups: seq<string>, gap: Option<nat>, v: seq<Group>)
    requires Reads(groups, gap, v) && exists i :: 0 <= i < |groups| && !IsZero(groups[i])
    requires LongestRun(groups, |groups|).1 >= 2
    ensures var (start, length) := LongestRun(groups, |groups|);
      Serialize(Join(CutRun(groups, start, length), ':')) == if OneDouble(groups) then Some(ToBytes(v)) else None
  {
    var (start, length) := LongestRun(groups, |groups|);
    LongestIsMaximal(groups);
    if OneDouble(groups) {
      CutReads(groups, gap, v, start, length);
    } else {
      var j: int :| Gap(groups, j) && !(start <= j < start + length);
      TwoGapsLeft(groups, start, length, j);
    }
  }

  /**
   A readable text, compressed, is read as the same address exactly if the run that is cut out has its
   `::`; otherwise the result has two of them and is not readable any more.
   */
  lemma CompressedReadsIff(ip: string)
    requires Serialize(ip).Some?
    ensures Serialize(Compress(ip)) == if OneDouble(NormalGroups(ip)) then Serialize(ip) else None
  {
    var gap, v := SerializedReads(ip);
    var groups := NormalGroups(ip);
    NormalGroupsAt(ip);
    NormalReads(Split(ip, ':'), groups, gap, v);
    if forall i :: 0 <= i < |groups| ==> IsZero(groups[i]) {
      AllZeroReads(groups, gap, v);
      AllZeroIsOne(groups);
    } else if LongestRun(groups, |groups|).1 < 2 {
      ReadsSerialized(groups, gap, v);
    } else {
      CutReadsIff(groups, gap, v);
    }
  }

  lemma AllZeroIsOne(groups: seq<string>)
    requires forall i :: 0 <= i < |groups| ==> IsZero(groups[i])
    ensures OneDouble(groups)
  {
    NoLongerRun(groups, 0, |groups|);
  }

  // ---------------------------------------------------------------- compressing twice

  const Twice: seq<Group> := [1, 0, 0, 0, 2, 0, 0, 3]

  lemma DigitTexts()
    ensures ToText(0, 16) == "0" && ToText(1, 16) == "1" && ToText(2, 16) == "2" && ToText(3, 16) == "3"
  {
  }

  lemma TwiceParts()
    ensures Hex(Twice[..1]) == ["1"] && Hex(Twice[4..]) == ["2", "0", "0", "3"]
    ensures Recommended(Twice, 1, 3) == "1::2:0:0:3"
  {
    DigitTexts();
    assert Twice[..1] == [1] && [1][1..] == [];
    assert Twice[4..] == [2, 0, 0, 3] && [2, 0, 0, 3][1..] == [0, 0, 3] && [0, 0, 3][1..] == [0, 3] &&
      [0, 3][1..] == [3];
    assert Hex([3]) == ["3"] && Hex([0, 3]) == ["0", "3"] && Hex([0, 0, 3]) == ["0", "0", "3"];
    var r := ["2", "0", "0", "3"];
    assert r[1..] == ["0", "0", "3"] && r[1..][1..] == ["0", "3"] && r[1..][1..][1..] == ["3"];
    assert Join(["3"], ':') == "3" && Join(["0", "3"], ':') == "0:3" && Join(["0", "0", "3"], ':') == "0:0:3";
    assert Join(r, ':') == "2:0:0:3";
  }

  lemma TwiceChosen()
    ensures Chosen(Twice, 1, 3)
  {
    forall s: nat, n: nat | ZeroRun(Twice, s, n) ensures n <= 3 && (n == 3 && n > 0 ==> 1 <= s) {
      assert Twice[0] == 1 && Twice[4] == 2 && Twice[7] == 3;
      assert n >= 3 ==> Twice[s] == 0 && Twice[s + 1] == 0 && Twice[s + 2] == 0;
    }
  }

  lemma {:induction false} GroupsOfBytes(v: seq<Group>)
    ensures ToGroups(ToBytes(v)) == v
  {
    if v != [] {
      GroupsOfBytes(v[1..]);
      var b := ToBytes(v);
      assert b[2..] == ToBytes(v[1..]);
      assert [v[0]] + v[1..] == v;
    }
  }

  /** The groups of the text: the gap is a run of one, and the two zeros behind it are longer. */
  lemma TwiceGroups(ip: string, groups: seq<string>)
    requires ip == "1::2:0:0:3" && groups == ["1", "", "2", "0", "0", "3"]
    ensures NormalGroups(ip) == groups
  {
    TwiceJoins();
    TwiceLower(ip);
    TwiceSplits(ip, groups);
    TwiceNormal(groups);
  }

  lemma TwiceLower(ip: string)
    requires ip == "1::2:0:0:3"
    ensures ToLower(ip) == ip
  {
    ToLowerKeeps(ip);
  }

  lemma TwiceSplits(ip: string, groups: seq<string>)
    requires groups == ["1", "", "2", "0", "0", "3"] && Join(groups, ':') == ip
    ensures Split(ip, ':') == groups
  {
    assert AllFree(groups, ':');
    SplitJoin(groups, ':');
  }

  lemma TwiceNormal(groups: seq<string>)
    requires groups == ["1", "", "2", "0", "0", "3"]
    ensures Normalize(groups) == groups
  {
    forall i | 0 <= i < 6 ensures Normalize(groups)[i] == groups[i] {
      NormalizeAt(groups, i);
    }
  }

  lemma TwiceJoins()
    ensures Join(["1", "", "2", "0", "0", "3"], ':') == "1::2:0:0:3"
  {
    JoinAroundZeros(["1"], ["2", "0", "0", "3"]);
    TwiceParts();
  }

  lemma TwiceRun()
    ensures LongestRun(["1", "", "2", "0", "0", "3"], 6) == (3, 2)
  {
  }

  /** Compressing a compressed text again can make it unreadable. */
  lemma CompressingTwiceFails()
    ensures var b := ToBytes(Twice);
      Ipv6Text.Canonical(b) == "1::2:0:0:3" && Serialize(Ipv6Text.Canonical(b)) == Some(b)
      && Serialize(Compress(Ipv6Text.Canonical(b))) == None
  {
    TwiceCanonical(ToBytes(Twice));
    RoundTrip(ToBytes(Twice));
    TwoDoubles("1::2:0:0:3", ["1", "", "2", "0", "0", "3"]);
  }

  lemma TwiceCanonical(b: Data)
    requires b == ToBytes(Twice)
    ensures Ipv6Text.Canonical(b) == "1::2:0:0:3"
  {
    GroupsOfBytes(Twice);
    CompressIsRecommended(b);
    var start, length :| Chosen(Twice, start, length) && Compress(Print(b).value) == Recommended(Twice, start, length);
    TwiceChosen();
    ChosenOnce(Twice, 1, 3, start, length);
    TwiceParts();
  }

  lemma TwoDoubles(ip: string, groups: seq<string>)
    requires ip == "1::2:0:0:3" && groups == ["1", "", "2", "0", "0", "3"] && Serialize(ip).Some?
    ensures Serialize(Compress(ip)) == None
  {
    TwiceGroups(ip, groups);
    TwiceRun();
    assert Gap(groups, 1);
    CompressedReadsIff(ip);
  }
}
