/** The catalog search of the `.id` command (`search_items`): the catalog text
    is split into blocks at every run of 50 or more dashes, each block is
    parsed for a `Name:` line and an `Item ID:` number, and the blocks whose
    name contains the keyword (ignoring case) yield `"name - id"`, in block
    order. Reading the catalog file is not modelled: the text is a parameter. */
module Catalog {
  import opened Text

  /** `re.split(r"-{50,}", data)`: a separator is a run of at least this many dashes. */
  const SeparatorLength: nat := 50
  /** The two labels, in lower case; they are matched ignoring case. */
  const NameLabel: string := "name:"
  const IdLabel: string := "item id:"

  /** A separator match starts at `i` (the regex is greedy, so it takes the whole dash run). */
  predicate SeparatorAt(s: string, i: nat)
    requires i <= |s|
  {
    Run(s, i, Dash) >= SeparatorLength
  }

  ghost predicate NoSeparator(s: string)
  {
    forall i :: 0 <= i <= |s| ==> !SeparatorAt(s, i)
  }

  /** The leftmost separator at or after `i`, or `|s|` when there is none. */
  function NextSeparator(s: string, i: nat): (p: nat)
    requires i <= |s|
    ensures i <= p <= |s|
    ensures p == |s| || SeparatorAt(s, p)
    ensures forall k :: i <= k < p ==> !SeparatorAt(s, k)
    decreases |s| - i
  {
    if i == |s| || SeparatorAt(s, i) then i else NextSeparator(s, i + 1)
  }

  /** A run inside the slice `s[lo..hi]` is no longer than the run at the
      same place in `s`. */
  lemma {:induction false} RunOfSlice(s: string, lo: nat, hi: nat, j: nat, cls: CharClass)
    requires lo <= hi <= |s| && j <= hi - lo
    ensures Run(s[lo..hi], j, cls) <= Run(s, lo + j, cls)
    decreases hi - lo - j
  {
    if j < hi - lo && InClass(s[lo + j], cls) {
      RunOfSlice(s, lo, hi, j + 1, cls);
    }
  }

  /** A stretch of the text in which no separator starts holds no separator. */
  lemma SliceHasNoSeparator(s: string, lo: nat, hi: nat)
    requires lo <= hi <= |s|
    requires forall k :: lo <= k < hi ==> !SeparatorAt(s, k)
    ensures NoSeparator(s[lo..hi])
  {
    forall j | 0 <= j <= hi - lo
      ensures !SeparatorAt(s[lo..hi], j)
    {
      if j < hi - lo {
        RunOfSlice(s, lo, hi, j, Dash);
        assert !SeparatorAt(s, lo + j);
      } else {
        assert Run(s[lo..hi], j, Dash) == 0;
      }
    }
  }

  /** The blocks of `s[i..]`, for `i` at the start of the text or just after
      a separator. */
  function BlocksFrom(s: string, i: nat): (r: seq<string>)
    requires i <= |s|
    ensures |r| >= 1
    decreases |s| - i
  {
    var p := NextSeparator(s, i);
    if p == |s| then [s[i..]]
    else [s[i..p]] + BlocksFrom(s, p + Run(s, p, Dash))
  }

  /** `re.split(r"-{50,}", s)`: the text between consecutive separators. */
  function Blocks(s: string): (r: seq<string>)
    ensures |r| >= 1
  {
    BlocksFrom(s, 0)
  }

  /** `d` is a run of at least `SeparatorLength` dashes. */
  ghost predicate DashRun(d: string)
  {
    |d| >= SeparatorLength && forall k :: 0 <= k < |d| ==> d[k] == '-'
  }

  /** The dash runs the split of `s[i..]` cuts out, in order. */
  function SeparatorsFrom(s: string, i: nat): (ds: seq<string>)
    requires i <= |s|
    ensures forall k :: 0 <= k < |ds| ==> DashRun(ds[k])
    decreases |s| - i
  {
    var p := NextSeparator(s, i);
    if p == |s| then []
    else [s[p..p + Run(s, p, Dash)]] + SeparatorsFrom(s, p + Run(s, p, Dash))
  }

  /** The dash runs `re.split(r"-{50,}", s)` cuts out, in order. */
  function Separators(s: string): (ds: seq<string>)
    ensures forall k :: 0 <= k < |ds| ==> DashRun(ds[k])
  {
    SeparatorsFrom(s, 0)
  }

  /** The blocks joined back together with the separators between them. */
  function Interleave(bs: seq<string>, ds: seq<string>): string
    requires |bs| == |ds| + 1
    decreases |ds|
  {
    if ds == [] then bs[0] else bs[0] + ds[0] + Interleave(bs[1..], ds[1..])
  }

  lemma ThreeSlices<T>(s: seq<T>, i: nat, p: nat, e: nat)
    requires i <= p <= e <= |s|
    ensures s[i..] == s[i..p] + s[p..e] + s[e..]
  {
  }

  lemma {:induction false} SplitFromRoundTrip(s: string, i: nat)
    requires i <= |s|
    ensures |SeparatorsFrom(s, i)| == |BlocksFrom(s, i)| - 1
    ensures Interleave(BlocksFrom(s, i), SeparatorsFrom(s, i)) == s[i..]
    decreases |s| - i
  {
    var p := NextSeparator(s, i);
    if p < |s| {
      var e := p + Run(s, p, Dash);
      SplitFromRoundTrip(s, e);
      var bs, ds := BlocksFrom(s, i), SeparatorsFrom(s, i);
      assert bs[0] == s[i..p] && bs[1..] == BlocksFrom(s, e);
      assert ds[0] == s[p..e] && ds[1..] == SeparatorsFrom(s, e);
      assert Interleave(bs, ds) == bs[0] + ds[0] + Interleave(bs[1..], ds[1..]);
      assert Interleave(bs, ds) == s[i..p] + s[p..e] + s[e..];
      ThreeSlices(s, i, p, e);
    }
  }

  /** Splitting loses nothing: there is one separator between consecutive
      blocks, and putting the separators back between the blocks gives the
      text that was split. */
  lemma SplitRoundTrip(s: string)
    ensures |Separators(s)| == |Blocks(s)| - 1
    ensures Interleave(Blocks(s), Separators(s)) == s
  {
    SplitFromRoundTrip(s, 0);
    assert s[0..] == s;
  }

  /** The split yields a single block, the whole text, exactly when the text
      holds no separator; otherwise the first block is the text before the
      leftmost separator. */
  lemma FirstBlock(s: string)
    ensures |Blocks(s)| == 1 <==> NoSeparator(s)
    ensures |Blocks(s)| == 1 ==> Blocks(s)[0] == s
    ensures |Blocks(s)| > 1 ==> SeparatorAt(s, |Blocks(s)[0]|) && Blocks(s)[0] == s[..|Blocks(s)[0]|]
    ensures forall k :: 0 <= k < |Blocks(s)[0]| ==> !SeparatorAt(s, k)
  {
    var p := NextSeparator(s, 0);
    if p == |s| {
      SliceHasNoSeparator(s, 0, |s|);
      assert s[0..|s|] == s;
    }
  }

  lemma {:induction false} BlocksFromHaveNoSeparator(s: string, i: nat)
    requires i <= |s|
    ensures forall k :: 0 <= k < |BlocksFrom(s, i)| ==> NoSeparator(BlocksFrom(s, i)[k])
    decreases |s| - i
  {
    var p := NextSeparator(s, i);
    if p == |s| {
      SliceHasNoSeparator(s, i, |s|);
      assert s[i..|s|] == s[i..];
    } else {
      var e := p + Run(s, p, Dash);
      SliceHasNoSeparator(s, i, p);
      BlocksFromHaveNoSeparator(s, e);
      var bs, rest := BlocksFrom(s, i), BlocksFrom(s, e);
      assert bs[0] == s[i..p] && bs[1..] == rest;
      forall k | 0 <= k < |bs|
        ensures NoSeparator(bs[k])
      {
        if k > 0 {
          assert bs[k] == rest[k - 1];
        }
      }
    }
  }

  /** No block contains a separator. */
  lemma BlocksHaveNoSeparator(s: string)
    ensures forall k :: 0 <= k < |Blocks(s)| ==> NoSeparator(Blocks(s)[k])
  {
    BlocksFromHaveNoSeparator(s, 0);
  }

  /** Right after a separator's dash run no further separator starts. */
  lemma NoSeparatorAfterRun(s: string, p: nat)
    requires p < |s| && SeparatorAt(s, p)
    ensures !SeparatorAt(s, p + Run(s, p, Dash))
  {
  }

  lemma {:induction false} BlocksFromInnerNonEmpty(s: string, i: nat)
    requires i <= |s|
    ensures forall k :: 0 < k < |BlocksFrom(s, i)| - 1 ==> BlocksFrom(s, i)[k] != []
    decreases |s| - i
  {
    var p := NextSeparator(s, i);
    if p < |s| {
      var e := p + Run(s, p, Dash);
      BlocksFromInnerNonEmpty(s, e);
      var bs, rest := BlocksFrom(s, i), BlocksFrom(s, e);
      var q := NextSeparator(s, e);
      if q < |s| {
        NoSeparatorAfterRun(s, p);
        assert rest[0] == s[e..q];
      }
      forall k | 0 < k < |bs| - 1
        ensures bs[k] != []
      {
        assert bs[k] == rest[k - 1];
      }
    }
  }

  /** Two separators never touch: every block between two separators holds
      at least one character. */
  lemma InnerBlocksNonEmpty(s: string)
    ensures forall k :: 0 < k < |Blocks(s)| - 1 ==> Blocks(s)[k] != []
  {
    BlocksFromInnerNonEmpty(s, 0);
  }

  /** Just before the leftmost separator there is no dash, since the dash
      run would otherwise start one position earlier. */
  lemma NoDashBeforeSeparator(s: string, i: nat)
    requires i < |s| && SeparatorAt(s, i + 1) && !SeparatorAt(s, i)
    ensures s[i] != '-'
  {
  }

  lemma {:induction false} BlocksFromEndWithoutDash(s: string, i: nat)
    requires i <= |s|
    ensures forall k :: 0 <= k < |BlocksFrom(s, i)| - 1 && BlocksFrom(s, i)[k] != [] ==>
              BlocksFrom(s, i)[k][|BlocksFrom(s, i)[k]| - 1] != '-'
    decreases |s| - i
  {
    var p := NextSeparator(s, i);
    if p < |s| {
      var e := p + Run(s, p, Dash);
      BlocksFromEndWithoutDash(s, e);
      var bs, rest := BlocksFrom(s, i), BlocksFrom(s, e);
      if p > i {
        NoDashBeforeSeparator(s, p - 1);
      }
      forall k | 0 <= k < |bs| - 1 && bs[k] != []
        ensures bs[k][|bs[k]| - 1] != '-'
      {
        if k > 0 {
          assert bs[k] == rest[k - 1];
        }
      }
    }
  }

  /** A separator takes the whole dash run before it: a block that a
      separator follows does not end with a dash. */
  lemma BlocksEndWithoutDash(s: string)
    ensures forall k :: 0 <= k < |Blocks(s)| - 1 && Blocks(s)[k] != [] ==> Blocks(s)[k][|Blocks(s)[k]| - 1] != '-'
  {
    BlocksFromEndWithoutDash(s, 0);
  }

  lemma {:induction false} BlocksFromStartWithoutDash(s: string, i: nat)
    requires i <= |s|
    ensures forall k :: 1 <= k < |BlocksFrom(s, i)| && BlocksFrom(s, i)[k] != [] ==> BlocksFrom(s, i)[k][0] != '-'
    decreases |s| - i
  {
    var p := NextSeparator(s, i);
    if p < |s| {
      var e := p + Run(s, p, Dash);
      BlocksFromStartWithoutDash(s, e);
      var bs, rest := BlocksFrom(s, i), BlocksFrom(s, e);
      var q := NextSeparator(s, e);
      assert rest[0] == if q == |s| then s[e..] else s[e..q];
      forall k | 1 <= k < |bs| && bs[k] != []
        ensures bs[k][0] != '-'
      {
        assert bs[k] == rest[k - 1];
      }
    }
  }

  /** A separator takes the whole dash run after it: a block that follows a
      separator does not start with a dash. */
  lemma BlocksStartWithoutDash(s: string)
    ensures forall k :: 1 <= k < |Blocks(s)| && Blocks(s)[k] != [] ==> Blocks(s)[k][0] != '-'
  {
    BlocksFromStartWithoutDash(s, 0);
  }

  predicate LabelAt(s: string, p: nat, tag: string)
  {
    p + |tag| <= |s| && Lower(s[p..p + |tag|]) == tag
  }

  /** Where the group `(.+)` of `\s*(.+)` starts when the greedy `\s*` has
      consumed `s[lo..j]`: backtracking gives up whitespace until the next
      character is not a newline, so this is the largest such position. */
  function CaptureStart(s: string, lo: nat, j: nat): (r: Option<nat>)
    requires lo <= j <= |s|
    ensures r.Some? ==> lo <= r.value <= j && r.value < |s| && s[r.value] != '\n'
    ensures r.Some? ==> forall k :: r.value < k <= j && k < |s| ==> s[k] == '\n'
    ensures r.None? ==> forall k :: lo <= k <= j && k < |s| ==> s[k] == '\n'
    decreases j
  {
    if j < |s| && s[j] != '\n' then Some(j)
    else if j == lo then None
    else CaptureStart(s, lo, j - 1)
  }

  /** Where group 1 of `Name:\s*(.+)` starts when the label is at `p`: the
      greedy `\s*` takes the whole whitespace run and gives back as much as
      `(.+)` needs to start on a character that is not a newline. */
  function NameStart(s: string, p: nat): (r: Option<nat>)
    requires LabelAt(s, p, NameLabel)
    ensures r.Some? ==> p + |NameLabel| <= r.value < |s|
  {
    var q := p + |NameLabel|;
    CaptureStart(s, q, q + Run(s, q, Space))
  }

  /** Group 1 of `Name:\s*(.+)` (ignoring case) matched at position `p`. */
  function NameMatchAt(s: string, p: nat): (r: Option<string>)
    ensures r.Some? ==> LabelAt(s, p, NameLabel) && NameStart(s, p).Some?
                        && r.value == s[NameStart(s, p).value..LineEnd(s, NameStart(s, p).value)]
    ensures r.Some? ==> |r.value| >= 1 && forall k :: 0 <= k < |r.value| ==> r.value[k] != '\n'
  {
    if !LabelAt(s, p, NameLabel) then None
    else
      match NameStart(s, p)
      case None => None
      case Some(j) => Some(s[j..LineEnd(s, j)])
  }

  /** `s[i..j]` is whitespace only. */
  ghost predicate SpacesBetween(s: string, i: nat, j: nat)
  {
    i <= j <= |s| && AllSpace(s[i..j])
  }

  /** `d` is a maximal run of digits starting at `j`. */
  ghost predicate DigitsAt(s: string, j: nat, d: string)
  {
    j + |d| <= |s| && s[j..j + |d|] == d && (j + |d| == |s| || !IsDigit(s[j + |d|]))
  }

  /** Whitespace between `i` and `j` cannot reach past the first non-whitespace character. */
  lemma SpacesStopAtRun(s: string, i: nat, j: nat)
    requires i <= |s| && SpacesBetween(s, i, j)
    ensures j <= i + Run(s, i, Space)
  {
  }

  /** The name pattern fails at `p` exactly when the label is not there or
      nothing but newlines follows it. */
  lemma NameMatchAtFails(s: string, p: nat)
    ensures NameMatchAt(s, p).None? <==> !LabelAt(s, p, NameLabel) || forall k :: p + |NameLabel| <= k < |s| ==> s[k] == '\n'
  {
  }

  /** Group 1 of `Item ID:\s*(\d+)` (ignoring case) matched at position `p`. */
  function IdMatchAt(s: string, p: nat): (r: Option<string>)
    ensures r.Some? ==> LabelAt(s, p, IdLabel)
    ensures r.Some? ==> |r.value| >= 1 && AllDigits(r.value)
    ensures r.Some? ==> exists j: nat :: SpacesBetween(s, p + |IdLabel|, j) && DigitsAt(s, j, r.value)
    ensures r.None? && LabelAt(s, p, IdLabel) ==>
              forall j: nat :: SpacesBetween(s, p + |IdLabel|, j) && j < |s| ==> !IsDigit(s[j])
  {
    if !LabelAt(s, p, IdLabel) then None
    else
      var q := p + |IdLabel|;
      var k := q + Run(s, q, Space);
      if k < |s| && IsDigit(s[k]) then
        var d := s[k..k + Run(s, k, Digit)];
        assert SpacesBetween(s, q, k) && DigitsAt(s, k, d);
        Some(d)
      else
        assert forall j: nat :: SpacesBetween(s, q, j) ==> j <= k by {
          forall j: nat | SpacesBetween(s, q, j) {
            SpacesStopAtRun(s, q, j);
          }
        }
        None
  }

  /** The attempts of `Name:\s*(.+)` at every position of the block. */
  function NameMatches(block: string): (ms: seq<Option<string>>)
  {
    seq(|block| + 1, p requires 0 <= p <= |block| => NameMatchAt(block, p))
  }

  /** The attempts of `Item ID:\s*(\d+)` at every position of the block. */
  function IdMatches(block: string): (ms: seq<Option<string>>)
  {
    seq(|block| + 1, p requires 0 <= p <= |block| => IdMatchAt(block, p))
  }

  /** `re.search(r"Name:\s*(.+)", block, re.IGNORECASE)`, reduced to its group. */
  function FindName(block: string): (r: Option<string>)
    ensures r.Some? ==> |r.value| >= 1 && forall k :: 0 <= k < |r.value| ==> r.value[k] != '\n'
  {
    FirstSome(NameMatches(block), 0)
  }

  /** `re.search(r"Item ID:\s*(\d+)", block, re.IGNORECASE)`, reduced to its group. */
  function FindId(block: string): (r: Option<string>)
    ensures r.Some? ==> |r.value| >= 1 && AllDigits(r.value)
  {
    FirstSome(IdMatches(block), 0)
  }

  /** The name found is the group of the leftmost position where the name
      pattern matches. */
  lemma FindNameLeftmost(block: string)
    ensures FindName(block).Some? ==>
              exists p: nat :: p <= |block| && NameMatchAt(block, p) == FindName(block)
                               && forall k: nat :: k < p ==> NameMatchAt(block, k).None?
  {
    var ms := NameMatches(block);
    if FindName(block).Some? {
      var p :| 0 <= p < |ms| && ms[p] == FindName(block) && forall k :: 0 <= k < p ==> ms[k].None?;
      forall k: nat | k < p
        ensures NameMatchAt(block, k).None?
      {
        assert ms[k] == NameMatchAt(block, k);
      }
      assert ms[p] == NameMatchAt(block, p);
    }
  }

  /** No name is found exactly when the name pattern matches at no position. */
  lemma FindNameAbsent(block: string)
    ensures FindName(block).None? <==> forall p: nat :: p <= |block| ==> NameMatchAt(block, p).None?
  {
    var ms := NameMatches(block);
    if FindName(block).None? {
      forall p: nat | p <= |block|
        ensures NameMatchAt(block, p).None?
      {
        assert ms[p] == NameMatchAt(block, p);
      }
    } else {
      FindNameLeftmost(block);
    }
  }

  /** The id found is the group of the leftmost position where the id
      pattern matches. */
  lemma FindIdLeftmost(block: string)
    ensures FindId(block).Some? ==>
              exists p: nat :: p <= |block| && IdMatchAt(block, p) == FindId(block)
                               && forall k: nat :: k < p ==> IdMatchAt(block, k).None?
  {
    var ms := IdMatches(block);
    if FindId(block).Some? {
      var p :| 0 <= p < |ms| && ms[p] == FindId(block) && forall k :: 0 <= k < p ==> ms[k].None?;
      forall k: nat | k < p
        ensures IdMatchAt(block, k).None?
      {
        assert ms[k] == IdMatchAt(block, k);
      }
      assert ms[p] == IdMatchAt(block, p);
    }
  }

  /** No id is found exactly when the id pattern matches at no position. */
  lemma FindIdAbsent(block: string)
    ensures FindId(block).None? <==> forall p: nat :: p <= |block| ==> IdMatchAt(block, p).None?
  {
    var ms := IdMatches(block);
    if FindId(block).None? {
      forall p: nat | p <= |block|
        ensures IdMatchAt(block, p).None?
      {
        assert ms[p] == IdMatchAt(block, p);
      }
    } else {
      FindIdLeftmost(block);
    }
  }

  datatype Item = Item(name: string, id: nat)

  /** A block is an item when both labels are found; the name is stripped and
      the id read as a number. */
  function ParseBlock(block: string): (r: Option<Item>)
    ensures r.Some? <==> FindName(block).Some? && FindId(block).Some?
    ensures r.Some? ==> forall k :: 0 <= k < |r.value.name| ==> r.value.name[k] != '\n'
    ensures r.Some? && r.value.name != [] ==> !IsSpace(r.value.name[0]) && !IsSpace(r.value.name[|r.value.name| - 1])
  {
    if FindName(block).Some? && FindId(block).Some? then
      StripAvoids(FindName(block).value, '\n');
      Some(Item(Strip(FindName(block).value), DecimalValue(FindId(block).value)))
    else
      None
  }

  /** The item of a block holds the captured name with its surrounding
      whitespace stripped off, and the value of the captured digits. */
  lemma ParseBlockMeaning(block: string)
    ensures ParseBlock(block).Some? ==>
              var n := FindName(block).value;
              exists i, j :: 0 <= i <= j <= |n| && ParseBlock(block).value.name == n[i..j]
                             && AllSpace(n[..i]) && AllSpace(n[j..])
    ensures ParseBlock(block).Some? ==> ParseBlock(block).value.id == DecimalValue(FindId(block).value)
  {
  }

  /** `keyword` and `name[j..j + |keyword|]` are equal ignoring case. */
  ghost predicate SameIgnoringCaseAt(name: string, keyword: string, j: nat)
  {
    j + |keyword| <= |name| && forall k :: 0 <= k < |keyword| ==> ToLower(name[j + k]) == ToLower(keyword[k])
  }

  /** `keyword.lower() in name.lower()` */
  predicate KeywordIn(keyword: string, name: string)
  {
    Contains(Lower(name), Lower(keyword))
  }

  /** The keyword is in the name exactly when it occurs in the name at some
      position, ignoring case. */
  lemma KeywordInMeaning(keyword: string, name: string)
    ensures KeywordIn(keyword, name) <==> exists j: nat :: SameIgnoringCaseAt(name, keyword, j)
  {
    forall j: nat
      ensures OccursAt(Lower(name), Lower(keyword), j) <==> SameIgnoringCaseAt(name, keyword, j)
    {
      if j + |keyword| <= |name| {
        if SameIgnoringCaseAt(name, keyword, j) {
          assert Lower(name)[j..j + |keyword|] == Lower(keyword);
        }
        if OccursAt(Lower(name), Lower(keyword), j) {
          forall k | 0 <= k < |keyword|
            ensures ToLower(name[j + k]) == ToLower(keyword[k])
          {
            assert Lower(name)[j..j + |keyword|][k] == Lower(keyword)[k];
          }
        }
      }
    }
  }

  /** `f"{name} - {item_id}"` */
  function Entry(item: Item): (r: string)
    ensures |r| > |item.name| + 3
    ensures r[..|item.name|] == item.name && r[|item.name|..|item.name| + 3] == " - "
    ensures AllDigits(r[|item.name| + 3..]) && DecimalValue(r[|item.name| + 3..]) == item.id
    ensures |r| > |item.name| + 4 ==> r[|item.name| + 3] != '0'
  {
    var digits := NatToDecimal(item.id);
    DecimalRoundTrip(item.id);
    var r := item.name + " - " + digits;
    assert r[|item.name| + 3..] == digits;
    r
  }

  predicate Selected(block: string, keyword: string)
  {
    ParseBlock(block).Some? && KeywordIn(keyword, ParseBlock(block).value.name)
  }

  /** What one block adds to the results. */
  function BlockResult(block: string, keyword: string): seq<string>
  {
    if Selected(block, keyword) then [Entry(ParseBlock(block).value)] else []
  }

  /** The results the blocks `bs` yield, block by block. */
  function Matches(bs: seq<string>, keyword: string): (r: seq<string>)
    ensures |r| <= |bs|
    decreases |bs|
  {
    if bs == [] then [] else BlockResult(bs[0], keyword) + Matches(bs[1..], keyword)
  }

  /** The value `search_items` returns for the catalog text `data`. */
  function Search(data: string, keyword: string): (r: seq<string>)
    ensures |r| <= |Blocks(data)|
  {
    Matches(Blocks(data), keyword)
  }

  /** Each block yields at most one result, and yields one exactly when it has
      both labels and its name contains the keyword. */
  lemma OneBlockAtMostOne(block: string, keyword: string)
    ensures |Matches([block], keyword)| <= 1
    ensures |Matches([block], keyword)| == 1 <==> Selected(block, keyword)
    ensures forall r :: r in Matches([block], keyword) <==>
                          Selected(block, keyword) && r == Entry(ParseBlock(block).value)
  {
    assert [block][1..] == [];
  }

  lemma BlockResultMembership(block: string, keyword: string, r: string)
    ensures r in BlockResult(block, keyword) <==> Selected(block, keyword) && r == Entry(ParseBlock(block).value)
  {
  }

  /** Results keep block order: the results of a concatenation of block lists
      are the results of the first list followed by those of the second. */
  lemma {:induction false} MatchesAppend(a: seq<string>, b: seq<string>, keyword: string)
    ensures Matches(a + b, keyword) == Matches(a, keyword) + Matches(b, keyword)
    decreases |a|
  {
    if a == [] {
      assert a + b == b;
    } else {
      assert (a + b)[1..] == a[1..] + b;
      MatchesAppend(a[1..], b, keyword);
    }
  }

  lemma MatchesSnoc(bs: seq<string>, block: string, keyword: string)
    ensures Matches(bs + [block], keyword) == Matches(bs, keyword) + BlockResult(block, keyword)
  {
    MatchesAppend(bs, [block], keyword);
    assert [block][1..] == [];
  }

  /** What a block yields, by the cases of the loop body in `search_items`. */
  lemma BlockResultCases(block: string, keyword: string)
    ensures FindName(block).None? || FindId(block).None? ==> BlockResult(block, keyword) == []
    ensures FindName(block).Some? && FindId(block).Some? ==>
              var item := Item(Strip(FindName(block).value), DecimalValue(FindId(block).value));
              BlockResult(block, keyword) == if KeywordIn(keyword, item.name) then [Entry(item)] else []
  {
  }

  /** One more block of a list adds what that block yields. */
  lemma MatchesStep(bs: seq<string>, i: nat, keyword: string)
    requires i < |bs|
    ensures Matches(bs[..i + 1], keyword) == Matches(bs[..i], keyword) + BlockResult(bs[i], keyword)
  {
    assert bs[..i + 1] == bs[..i] + [bs[i]];
    MatchesSnoc(bs[..i], bs[i], keyword);
  }

  lemma {:induction false} MatchesMembershipByBlock(bs: seq<string>, keyword: string, r: string)
    ensures r in Matches(bs, keyword) <==> exists i :: 0 <= i < |bs| && r in BlockResult(bs[i], keyword)
    decreases |bs|
  {
    if bs != [] {
      MatchesMembershipByBlock(bs[1..], keyword, r);
      if r in Matches(bs, keyword) && r !in BlockResult(bs[0], keyword) {
        var i :| 0 <= i < |bs[1..]| && r in BlockResult(bs[1..][i], keyword);
        assert bs[1..][i] == bs[i + 1];
      }
      if exists i :: 0 <= i < |bs| && r in BlockResult(bs[i], keyword) {
        var i :| 0 <= i < |bs| && r in BlockResult(bs[i], keyword);
        if i > 0 {
          assert bs[1..][i - 1] == bs[i];
        }
      }
    }
  }

  /** A string is among the results exactly when some block yields it. */
  lemma MatchesMembership(bs: seq<string>, keyword: string, r: string)
    ensures r in Matches(bs, keyword) <==> exists i :: 0 <= i < |bs| && Selected(bs[i], keyword) && r == Entry(ParseBlock(bs[i]).value)
  {
    MatchesMembershipByBlock(bs, keyword, r);
    forall i | 0 <= i < |bs|
      ensures r in BlockResult(bs[i], keyword) <==> Selected(bs[i], keyword) && r == Entry(ParseBlock(bs[i]).value)
    {
      BlockResultMembership(bs[i], keyword, r);
    }
  }

  /** `search_items` over the catalog text `data`: the loop over the split
      blocks that appends each block's entry to the results. */
  method SearchItems(data: string, keyword: string) returns (results: seq<string>)
    ensures results == Search(data, keyword)
    ensures |results| <= |Blocks(data)|
  {
    results := [];
    var rawItems := Blocks(data);
    var i := 0;
    while i < |rawItems|
      invariant 0 <= i <= |rawItems|
      invariant results == Matches(rawItems[..i], keyword)
    {
      var item := rawItems[i];
      var nameMatch := FindName(item);
      var idMatch := FindId(item);
      var entry := [];
      if nameMatch.Some? && idMatch.Some? {
        var name := Strip(nameMatch.value);
        var itemId := DecimalValue(idMatch.value);
        if KeywordIn(keyword, name) {
          entry := [Entry(Item(name, itemId))];
        }
      }
      BlockResultCases(item, keyword);
      MatchesStep(rawItems, i, keyword);
      results := results + entry;
      i := i + 1;
    }
    assert rawItems[..i] == rawItems;
  }
}
