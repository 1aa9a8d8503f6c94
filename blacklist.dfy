/**
 * The configuration blacklist: settings mapping dotted field paths to
 * regular expressions, the registry of compiled patterns built from them,
 * the per-block decision and the batch detection over groups of blocks.
 */
module Blacklist {
  import opened Wrappers
  import opened ConfigTree
  import opened Paths
  import opened Traversal

  /** Blacklist settings: dotted field path to pattern text. */
  datatype ConfigBlacklistSettings = ConfigBlacklistSettings(patterns: map<string, string>)

  datatype SettingsError =
    | WrongType                       // the settings input is not a map
    | InvalidRegexp(pattern: string)  // this pattern text does not compile

  /** The registry: dotted field path to compiled pattern. Built once and
      only read afterwards. */
  datatype ConfigBlacklist = ConfigBlacklist(patterns: map<string, Matcher>)

  /** A configuration block as received; None when its raw settings cannot
      be read into a configuration tree. */
  datatype ConfigBlock = ConfigBlock(config: Option<Node>)

  /** The blocks of one type, in order. */
  datatype ConfigBlockGroup = ConfigBlockGroup(blockType: string, blocks: seq<ConfigBlock>)

  datatype ErrorType = ConfigError

  /** One detection: a blacklisted block, identified by its type. */
  datatype Error = Error(errorType: ErrorType, blockType: string)

  /** Reading settings: only a map is accepted. `flatten` stands for turning
      the nested map into dotted keys and rendering each value as text. */
  function Unpack(from: Node, flatten: seq<(string, Node)> -> map<string, string>)
    : (r: Result<ConfigBlacklistSettings, SettingsError>)
    ensures r.Err? <==> !from.Dict?
    ensures r.Err? ==> r.error == WrongType
    ensures r.Ok? ==> r.value.patterns == flatten(from.fields)
  {
    if from.Dict? then Ok(ConfigBlacklistSettings(flatten(from.fields))) else Err(WrongType)
  }

  /** Compiles every pattern, visiting the settings in no particular order.
      All or nothing: one pattern that does not compile gives an error
      naming a pattern that does not compile, and no registry. */
  method NewConfigBlacklist(cfg: ConfigBlacklistSettings, compile: string -> Option<Matcher>)
    returns (r: Result<ConfigBlacklist, SettingsError>)
    ensures r.Err? <==> exists f :: f in cfg.patterns && compile(cfg.patterns[f]).None?
    ensures r.Err? ==> exists f :: f in cfg.patterns && compile(cfg.patterns[f]).None?
                                   && r.error == InvalidRegexp(cfg.patterns[f])
    ensures r.Ok? ==> r.value.patterns.Keys == cfg.patterns.Keys
    ensures r.Ok? ==> forall f :: f in cfg.patterns ==>
                        compile(cfg.patterns[f]) == Some(r.value.patterns[f])
  {
    var list: map<string, Matcher> := map[];
    var remaining := cfg.patterns.Keys;
    while remaining != {}
      invariant remaining <= cfg.patterns.Keys
      invariant list.Keys == cfg.patterns.Keys - remaining
      invariant forall f :: f in list ==> compile(cfg.patterns[f]) == Some(list[f])
      decreases remaining
    {
      var field :| field in remaining;
      var exp := compile(cfg.patterns[field]);
      if exp.None? {
        return Err(InvalidRegexp(cfg.patterns[field]));
      }
      list := list[field := exp.value];
      remaining := remaining - {field};
    }
    return Ok(ConfigBlacklist(list));
  }

  /** One registry entry hits a configuration tree of type `blockType`:
      the entry applies to the type, and the walk along its segments hits. */
  predicate EntryHits(m: Matcher, field: string, blockType: string, cfg: Node)
  {
    match SegmentsFor(field, blockType)
    case None => false
    case Some(segs) => Blacklisted(m, segs, cfg)
  }

  /** A block is blacklisted when it can be read and some entry hits it.
      An unreadable block is never blacklisted. */
  predicate BlockBlacklisted(bl: ConfigBlacklist, blockType: string, block: ConfigBlock)
  {
    && block.config.Some?
    && exists f | f in bl.patterns :: EntryHits(bl.patterns[f], f, blockType, block.config.value)
  }

  /** The per-block decision as the source runs it: entries are visited in
      no particular order and the first hit ends the search. */
  method IsBlacklisted(bl: ConfigBlacklist, blockType: string, block: ConfigBlock) returns (hit: bool)
    ensures hit == BlockBlacklisted(bl, blockType, block)
  {
    if block.config.None? {
      return false;
    }
    var cfg := block.config.value;
    var remaining := bl.patterns.Keys;
    while remaining != {}
      invariant remaining <= bl.patterns.Keys
      invariant forall f :: f in bl.patterns.Keys - remaining ==>
                  !EntryHits(bl.patterns[f], f, blockType, cfg)
      decreases remaining
    {
      var field :| field in remaining;
      var segments := SegmentsFor(field, blockType);
      if segments.Some? {
        // this entry affects a field of this block type
        var sub := IsBlacklistedBlock(bl.patterns[field], segments.value, cfg);
        if sub {
          return true;
        }
      }
      remaining := remaining - {field};
    }
    return false;
  }

  /** The detections for the blocks of one type, in block order. */
  function GroupDetections(bl: ConfigBlacklist, blockType: string, blocks: seq<ConfigBlock>): seq<Error>
  {
    if blocks == [] then []
    else
      (if BlockBlacklisted(bl, blockType, blocks[0]) then [Error(ConfigError, blockType)] else [])
      + GroupDetections(bl, blockType, blocks[1..])
  }

  /** The detections for all groups: group order, then block order. */
  function Detections(bl: ConfigBlacklist, groups: seq<ConfigBlockGroup>): seq<Error>
  {
    if groups == [] then []
    else GroupDetections(bl, groups[0].blockType, groups[0].blocks) + Detections(bl, groups[1..])
  }

  /** Batch detection as the source runs it: nested loops over the groups
      and their blocks, appending one error per blacklisted block. */
  method Detect(bl: ConfigBlacklist, configBlocks: seq<ConfigBlockGroup>) returns (errs: seq<Error>)
    ensures errs == Detections(bl, configBlocks)
  {
    errs := [];
    for gi := 0 to |configBlocks|
      invariant errs == Detections(bl, configBlocks[..gi])
    {
      var configs := configBlocks[gi];
      for bi := 0 to |configs.blocks|
        invariant errs == Detections(bl, configBlocks[..gi])
                          + GroupDetections(bl, configs.blockType, configs.blocks[..bi])
      {
        var hit := IsBlacklisted(bl, configs.blockType, configs.blocks[bi]);
        GroupDetectionsAppend(bl, configs.blockType, configs.blocks[..bi], [configs.blocks[bi]]);
        assert configs.blocks[..bi + 1] == configs.blocks[..bi] + [configs.blocks[bi]];
        if hit {
          errs := errs + [Error(ConfigError, configs.blockType)];
        }
      }
      assert configs.blocks[..|configs.blocks|] == configs.blocks;
      DetectionsAppend(bl, configBlocks[..gi], [configs]);
      assert configBlocks[..gi + 1] == configBlocks[..gi] + [configs];
    }
    assert configBlocks[..|configBlocks|] == configBlocks;
  }

  /** Detections over consecutive runs of blocks concatenate. */
  lemma {:induction false} GroupDetectionsAppend(bl: ConfigBlacklist, blockType: string,
                                                 a: seq<ConfigBlock>, b: seq<ConfigBlock>)
    ensures GroupDetections(bl, blockType, a + b)
            == GroupDetections(bl, blockType, a) + GroupDetections(bl, blockType, b)
  {
    if a != [] {
      assert (a + b)[0] == a[0];
      assert (a + b)[1..] == a[1..] + b;
      GroupDetectionsAppend(bl, blockType, a[1..], b);
    } else {
      assert a + b == b;
    }
  }

  /** Detections over consecutive runs of groups concatenate. */
  lemma {:induction false} DetectionsAppend(bl: ConfigBlacklist, a: seq<ConfigBlockGroup>, b: seq<ConfigBlockGroup>)
    ensures Detections(bl, a + b) == Detections(bl, a) + Detections(bl, b)
  {
    if a != [] {
      assert (a + b)[0] == a[0];
      assert (a + b)[1..] == a[1..] + b;
      DetectionsAppend(bl, a[1..], b);
    } else {
      assert a + b == b;
    }
  }

  /** The positions holding true. */
  function Marked(flags: seq<bool>): set<nat>
  {
    set i: nat | i < |flags| && flags[i]
  }

  /** Whether each block of a group is blacklisted, block by block. */
  function Verdicts(bl: ConfigBlacklist, blockType: string, blocks: seq<ConfigBlock>): (v: seq<bool>)
    ensures |v| == |blocks|
    ensures forall i :: 0 <= i < |blocks| ==> v[i] == BlockBlacklisted(bl, blockType, blocks[i])
  {
    if blocks == [] then []
    else [BlockBlacklisted(bl, blockType, blocks[0])] + Verdicts(bl, blockType, blocks[1..])
  }

  /** Positions of the blacklisted blocks of a group. */
  function BlacklistedPositions(bl: ConfigBlacklist, blockType: string, blocks: seq<ConfigBlock>): set<nat>
  {
    Marked(Verdicts(bl, blockType, blocks))
  }

  /** The number of blacklisted blocks over all groups. */
  function BlacklistedCount(bl: ConfigBlacklist, groups: seq<ConfigBlockGroup>): nat
  {
    if groups == [] then 0
    else |BlacklistedPositions(bl, groups[0].blockType, groups[0].blocks)| + BlacklistedCount(bl, groups[1..])
  }

  function Shift(s: set<nat>): set<nat>
  {
    set i | i in s :: i + 1
  }

  /** Shifting a set of positions by one keeps its size. */
  lemma ShiftSize(s: set<nat>)
    ensures |Shift(s)| == |s|
  {
    if s != {} {
      var x :| x in s;
      ShiftSize(s - {x});
      forall y | y in Shift(s)
        ensures y in Shift(s - {x}) + {x + 1}
      {
        var i :| i in s && y == i + 1;
        if i != x {
          assert i in s - {x};
        }
      }
      assert Shift(s) == Shift(s - {x}) + {x + 1};
      assert x + 1 !in Shift(s - {x});
    }
  }

  /** The marked positions split into the first flag and the shifted
      marked positions of the rest. */
  lemma MarkedCons(flags: seq<bool>)
    requires flags != []
    ensures |Marked(flags)| == (if flags[0] then 1 else 0) + |Marked(flags[1..])|
  {
    var rest := Marked(flags[1..]);
    var head: set<nat> := if flags[0] then {0} else {};
    forall y: nat
      ensures y in Marked(flags) <==> y in head + Shift(rest)
    {
      if 0 < y < |flags| {
        assert flags[1..][y - 1] == flags[y];
        assert y - 1 in rest ==> y in Shift(rest);
      }
    }
    assert Marked(flags) == head + Shift(rest);
    ShiftSize(rest);
  }

  lemma BlacklistedPositionsCons(bl: ConfigBlacklist, blockType: string, blocks: seq<ConfigBlock>)
    requires blocks != []
    ensures |BlacklistedPositions(bl, blockType, blocks)|
            == (if BlockBlacklisted(bl, blockType, blocks[0]) then 1 else 0)
               + |BlacklistedPositions(bl, blockType, blocks[1..])|
  {
    var v := Verdicts(bl, blockType, blocks);
    assert v[1..] == Verdicts(bl, blockType, blocks[1..]);
    MarkedCons(v);
  }

  /** A group yields exactly one config error, for the group's type, per
      blacklisted block (so never more than it has blocks), and none
      exactly when none of its blocks is blacklisted. */
  lemma {:induction false} GroupDetectionsExact(bl: ConfigBlacklist, blockType: string, blocks: seq<ConfigBlock>)
    ensures forall e :: e in GroupDetections(bl, blockType, blocks) ==> e == Error(ConfigError, blockType)
    ensures |GroupDetections(bl, blockType, blocks)| == |BlacklistedPositions(bl, blockType, blocks)|
    ensures |GroupDetections(bl, blockType, blocks)| <= |blocks|
    ensures GroupDetections(bl, blockType, blocks) == []
            <==> forall b :: b in blocks ==> !BlockBlacklisted(bl, blockType, b)
  {
    if blocks != [] {
      GroupDetectionsExact(bl, blockType, blocks[1..]);
      BlacklistedPositionsCons(bl, blockType, blocks);
      assert forall b :: b in blocks ==> b == blocks[0] || b in blocks[1..];
    }
  }

  /** The batch yields exactly as many errors as there are blacklisted
      blocks, over all groups. */
  lemma {:induction false} DetectionsCount(bl: ConfigBlacklist, groups: seq<ConfigBlockGroup>)
    ensures |Detections(bl, groups)| == BlacklistedCount(bl, groups)
  {
    if groups != [] {
      DetectionsCount(bl, groups[1..]);
      GroupDetectionsExact(bl, groups[0].blockType, groups[0].blocks);
    }
  }

  /** Every error names the type of a group holding a blacklisted block,
      every blacklisted block's type is reported, and clean input (or no
      input) yields nothing. */
  lemma {:induction false} DetectionsExact(bl: ConfigBlacklist, groups: seq<ConfigBlockGroup>)
    ensures forall e :: e in Detections(bl, groups) ==>
      e.errorType == ConfigError &&
      exists g :: g in groups && g.blockType == e.blockType &&
                  exists b :: b in g.blocks && BlockBlacklisted(bl, g.blockType, b)
    ensures forall g, b :: g in groups && b in g.blocks && BlockBlacklisted(bl, g.blockType, b) ==>
      Error(ConfigError, g.blockType) in Detections(bl, groups)
    ensures Detections(bl, groups) == []
            <==> forall g, b :: g in groups && b in g.blocks ==> !BlockBlacklisted(bl, g.blockType, b)
  {
    if groups != [] {
      var g0 := groups[0];
      DetectionsExact(bl, groups[1..]);
      GroupDetectionsSound(bl, g0.blockType, g0.blocks);
      GroupDetectionsComplete(bl, g0.blockType, g0.blocks);
      GroupDetectionsExact(bl, g0.blockType, g0.blocks);
      assert forall g :: g in groups ==> g == g0 || g in groups[1..];
    }
  }

  lemma {:induction false} GroupDetectionsSound(bl: ConfigBlacklist, blockType: string, blocks: seq<ConfigBlock>)
    ensures GroupDetections(bl, blockType, blocks) != [] ==>
      exists b :: b in blocks && BlockBlacklisted(bl, blockType, b)
  {
    if blocks != [] && !BlockBlacklisted(bl, blockType, blocks[0]) {
      GroupDetectionsSound(bl, blockType, blocks[1..]);
      if GroupDetections(bl, blockType, blocks) != [] {
        var b :| b in blocks[1..] && BlockBlacklisted(bl, blockType, b);
        assert b in blocks;
      }
    }
  }

  lemma {:induction false} GroupDetectionsComplete(bl: ConfigBlacklist, blockType: string, blocks: seq<ConfigBlock>)
    ensures (exists b :: b in blocks && BlockBlacklisted(bl, blockType, b)) ==>
      Error(ConfigError, blockType) in GroupDetections(bl, blockType, blocks)
  {
    if blocks != [] {
      GroupDetectionsComplete(bl, blockType, blocks[1..]);
      if exists b :: b in blocks && BlockBlacklisted(bl, blockType, b) {
        var b :| b in blocks && BlockBlacklisted(bl, blockType, b);
        if b != blocks[0] {
          assert b in blocks[1..];
        }
      }
    }
  }

  /** A block whose configuration cannot be read yields no detection and
      does not affect the detections of the blocks around it. */
  lemma UnreadableBlockIgnored(bl: ConfigBlacklist, blockType: string,
                               before: seq<ConfigBlock>, b: ConfigBlock, after: seq<ConfigBlock>)
    requires b.config.None?
    ensures GroupDetections(bl, blockType, before + [b] + after)
            == GroupDetections(bl, blockType, before + after)
  {
    GroupDetectionsAppend(bl, blockType, before + [b], after);
    GroupDetectionsAppend(bl, blockType, before, [b]);
    GroupDetectionsAppend(bl, blockType, before, after);
  }

  /** An entry whose field does not apply to a block type never changes
      the decision for blocks of that type, whether it is added or replaces
      an entry with the same field. */
  lemma IrrelevantEntry(bl: ConfigBlacklist, field: string, m: Matcher, blockType: string, block: ConfigBlock)
    requires SegmentsFor(field, blockType).None?
    ensures BlockBlacklisted(ConfigBlacklist(bl.patterns[field := m]), blockType, block)
            == BlockBlacklisted(bl, blockType, block)
  {
    var ext := ConfigBlacklist(bl.patterns[field := m]);
    if BlockBlacklisted(ext, blockType, block) {
      var f :| f in ext.patterns && EntryHits(ext.patterns[f], f, blockType, block.config.value);
      assert f != field;
      assert f in bl.patterns && ext.patterns[f] == bl.patterns[f];
    }
    if BlockBlacklisted(bl, blockType, block) {
      var f :| f in bl.patterns && EntryHits(bl.patterns[f], f, blockType, block.config.value);
      assert f in ext.patterns && ext.patterns[f] == bl.patterns[f];
    }
  }
}
