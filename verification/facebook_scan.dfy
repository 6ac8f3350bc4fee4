/**
 * The block scan of `fbdata`: for each `div._4bl9` element, the text of its first inner
 * `div` is read; a text saying "like this" sets the like count, one saying "follow this"
 * sets the follow count, each to the text's first number. The page is a parameter (a list
 * of blocks) and so is the clock reading used for the timestamp.
 */
module FacebookScan {
  import opened Wrappers
  import opened Text
  import opened NumberExtract
  import opened Frames

  /** A `div._4bl9` element, given by the texts of the `div` elements inside it. */
  datatype Block = Block(innerDivs: seq<string>)

  /** The `datatoscrape` mapping `fbdata` fills: like count, follow count and scrape date. */
  datatype FbRecord = FbRecord(likes: string, follows: string, date: string)

  /** Why `fbdata` raises: a block without an inner `div` (IndexError), or a count phrase without a number. */
  datatype ScanError = NoInnerDiv | NoNumber

  const LikePhrase: string := "like this"
  const FollowPhrase: string := "follow this"

  /** The record as the column mapping `assignvalues` receives. */
  function Fields(r: FbRecord): (d: map<string, Cell>)
    ensures d.Keys == {"fblikes", "fbfollows", "date"}
    ensures d["fblikes"] == Some(r.likes) && d["fbfollows"] == Some(r.follows) && d["date"] == Some(r.date)
  {
    map["fblikes" := Some(r.likes), "fbfollows" := Some(r.follows), "date" := Some(r.date)]
  }

  /** `any(d)` on a dict: true when some KEY is truthy, that is, a non-empty string. */
  predicate AnyKey(d: map<string, Cell>) {
    exists k :: k in d && |k| > 0
  }

  /** The block sets a count: it has an inner `div` whose text mentions likes or follows. */
  predicate Counts(b: Block) {
    |b.innerDivs| > 0 && (Contains(b.innerDivs[0], LikePhrase) || Contains(b.innerDivs[0], FollowPhrase))
  }

  /** The block makes `fbdata` raise. */
  predicate Fatal(b: Block) {
    |b.innerDivs| == 0 || (Counts(b) && !HasPair(b.innerDivs[0]))
  }

  /** Lines 31-37 for one block. */
  function ScanBlock(b: Block, r: FbRecord): (res: Result<FbRecord, ScanError>)
    ensures res.Failure? <==> Fatal(b)
    ensures res.Success? ==> res.value.date == r.date
    ensures res.Success? && !Counts(b) ==> res.value == r
    ensures res.Success? && |b.innerDivs| > 0 && Contains(b.innerDivs[0], LikePhrase) ==>
      res.value.likes == Extract(b.innerDivs[0]).value
    ensures res.Success? && |b.innerDivs| > 0 && !Contains(b.innerDivs[0], LikePhrase) ==>
      res.value.likes == r.likes
    ensures res.Success? && |b.innerDivs| > 0 && Contains(b.innerDivs[0], FollowPhrase) ==>
      res.value.follows == Extract(b.innerDivs[0]).value
    ensures res.Success? && |b.innerDivs| > 0 && !Contains(b.innerDivs[0], FollowPhrase) ==>
      res.value.follows == r.follows
  {
    if |b.innerDivs| == 0 then Failure(NoInnerDiv)
    else
      var text := b.innerDivs[0];
      var n := Extract(text);
      if (Contains(text, LikePhrase) || Contains(text, FollowPhrase)) && n.Failure? then Failure(NoNumber)
      else
        var r1 := if Contains(text, LikePhrase) then r.(likes := n.value) else r;
        var r2 := if Contains(text, FollowPhrase) then r1.(follows := n.value) else r1;
        Success(r2)
  }

  /** Lines 30-39: the blocks in page order; the first fatal block ends the scan. */
  function ScanBlocks(blocks: seq<Block>, r: FbRecord): (res: Result<FbRecord, ScanError>)
    decreases |blocks|
  {
    if |blocks| == 0 then Success(r)
    else match ScanBlock(blocks[0], r)
      case Failure(e) => Failure(e)
      case Success(r1) => ScanBlocks(blocks[1..], r1)
  }

  /** A value read from a page is a count: two or more digits. */
  predicate IsCount(v: string) {
    AllDigits(v) && |v| >= 2
  }

  /**
   * The scan fails exactly when some block is fatal. When it succeeds it leaves the date
   * alone, leaves the record alone if no block counts, and every count it reports is either
   * the one it started with or a number read from the page.
   */
  lemma {:induction false} ScanBlocksSpec(blocks: seq<Block>, r: FbRecord)
    ensures ScanBlocks(blocks, r).Failure? <==> exists i :: 0 <= i < |blocks| && Fatal(blocks[i])
    ensures ScanBlocks(blocks, r).Success? ==>
      var out := ScanBlocks(blocks, r).value;
      && out.date == r.date
      && ((forall i :: 0 <= i < |blocks| ==> !Counts(blocks[i])) ==> out == r)
      && (out.likes == r.likes || IsCount(out.likes))
      && (out.follows == r.follows || IsCount(out.follows))
    decreases |blocks|
  {
    if |blocks| > 0 {
      var b := blocks[0];
      ScanBlocksSpec(blocks[1..], if ScanBlock(b, r).Success? then ScanBlock(b, r).value else r);
      assert forall i :: 0 < i < |blocks| ==> blocks[i] == blocks[1..][i - 1];
      if ScanBlock(b, r).Success? && |b.innerDivs| > 0 {
        var t := b.innerDivs[0];
        assert Contains(t, LikePhrase) || Contains(t, FollowPhrase) ==> HasPair(t);
      }
      if exists i :: 0 <= i < |blocks[1..]| && Fatal(blocks[1..][i]) {
        var i :| 0 <= i < |blocks[1..]| && Fatal(blocks[1..][i]);
        assert Fatal(blocks[i + 1]);
      }
    }
  }

  /** Scanning one more block continues from where the shorter scan stopped. */
  lemma {:induction false} ScanBlocksSnoc(blocks: seq<Block>, b: Block, r: FbRecord)
    ensures ScanBlocks(blocks + [b], r) ==
      match ScanBlocks(blocks, r)
      case Failure(e) => Failure(e)
      case Success(r1) => ScanBlock(b, r1)
    decreases |blocks|
  {
    if |blocks| == 0 {
      assert blocks + [b] == [b];
    } else {
      assert (blocks + [b])[1..] == blocks[1..] + [b];
      match ScanBlock(blocks[0], r)
      case Failure(_) =>
      case Success(r1) => ScanBlocksSnoc(blocks[1..], b, r1);
    }
  }

  /**
   * A later block overrides an earlier one: when the last block mentions likes (or follows),
   * the count it carries is the one reported, whatever the blocks before it said.
   */
  lemma LastBlockDecides(blocks: seq<Block>, b: Block, r: FbRecord)
    ensures ScanBlocks(blocks + [b], r).Success? ==> ScanBlock(b, r).Success?
    ensures ScanBlocks(blocks + [b], r).Success? && |b.innerDivs| > 0 && Contains(b.innerDivs[0], LikePhrase) ==>
      ScanBlocks(blocks + [b], r).value.likes == ScanBlock(b, r).value.likes
    ensures ScanBlocks(blocks + [b], r).Success? && |b.innerDivs| > 0 && Contains(b.innerDivs[0], FollowPhrase) ==>
      ScanBlocks(blocks + [b], r).value.follows == ScanBlock(b, r).value.follows
  {
    ScanBlocksSnoc(blocks, b, r);
  }

  /**
   * Lines 30-41 as written: `any(datatoscrape)` looks at the keys, which are never empty, so
   * the date is stamped after every scan, whether or not the page gave a count.
   */
  function FbDataAsWritten(blocks: seq<Block>, r: FbRecord, now: string): (res: Result<FbRecord, ScanError>)
    ensures res.Failure? <==> exists i :: 0 <= i < |blocks| && Fatal(blocks[i])
    ensures res.Success? ==>
      ScanBlocks(blocks, r).Success? && res.value == ScanBlocks(blocks, r).value.(date := now)
    ensures res.Success? && (forall i :: 0 <= i < |blocks| ==> !Counts(blocks[i])) ==>
      res.value == r.(date := now)
    ensures res.Success? ==>
      (res.value.likes == r.likes || IsCount(res.value.likes)) &&
      (res.value.follows == r.follows || IsCount(res.value.follows))
  {
    ScanBlocksSpec(blocks, r);
    match ScanBlocks(blocks, r)
    case Failure(e) => Failure(e)
    case Success(r1) =>
      assert "fblikes" in Fields(r1);
      if AnyKey(Fields(r1)) then Success(r1.(date := now)) else Success(r1)
  }

  /** A page with nothing on it is still stamped as scraped. */
  lemma EmptyPageStampedAsWritten(r: FbRecord, now: string)
    ensures FbDataAsWritten([], r, now) == Success(r.(date := now))
  {
  }

  /**
   * Lines 30-41 as intended: the scrape date is set only when the page gave a like or a
   * follow count; a page without one leaves the record as it was.
   */
  function FbData(blocks: seq<Block>, r: FbRecord, now: string): (res: Result<FbRecord, ScanError>)
    ensures res.Failure? <==> exists i :: 0 <= i < |blocks| && Fatal(blocks[i])
    ensures res.Success? ==>
      res.value.date == (if exists i :: 0 <= i < |blocks| && Counts(blocks[i]) then now else r.date)
    ensures res.Success? && (forall i :: 0 <= i < |blocks| ==> !Counts(blocks[i])) ==> res.value == r
    ensures res.Success? ==>
      (res.value.likes == r.likes || IsCount(res.value.likes)) &&
      (res.value.follows == r.follows || IsCount(res.value.follows))
  {
    ScanBlocksSpec(blocks, r);
    match ScanBlocks(blocks, r)
    case Failure(e) => Failure(e)
    case Success(r1) =>
      if exists i :: 0 <= i < |blocks| && Counts(blocks[i]) then Success(r1.(date := now)) else Success(r1)
  }

  /** The corrected scan agrees with the code as written whenever the page gave a count. */
  lemma FbDataAgrees(blocks: seq<Block>, r: FbRecord, now: string)
    requires exists i :: 0 <= i < |blocks| && Counts(blocks[i])
    ensures FbData(blocks, r, now) == FbDataAsWritten(blocks, r, now)
  {
    ScanBlocksSpec(blocks, r);
  }
}
