# Configuration blacklist engine

A Dafny model of the configuration blacklist in Beats' central management
(`x-pack/libbeat/management/blacklist.go`). The blacklist maps dotted field
paths (such as `output.elasticsearch.hosts`) to regular expressions. When
configuration blocks arrive from central management, each block is checked
against the entries, in no particular order, until an entry hits. A block
is reported as blacklisted when an entry applies to the block's type and its pattern matches something in the block's
configuration tree at the entry's path.

The model has six modules:

- `Wrappers` (`wrappers.dfy`): `Option` and `Result`.
- `ConfigTree` (`config_tree.dfy`): the configuration tree. `Node` is a
  dictionary (an association list of fields), an array, or a scalar.
  `Scalar(None)` is a leaf that cannot be read as a string. This module also
  has the accessors the walk uses: field names, first field with a given
  name, and string value.
- `Paths` (`paths.dfy`): splitting on `.`, joining, and the prefix rule
  `SegmentsFor`. The prefix rule decides whether an entry applies to a block
  type, and gives the path segments that remain.
- `Traversal` (`traversal.dfy`): the tree/path walk. `Blacklisted` specifies
  it case by case. `IsBlacklistedBlock` is the walk as the source runs it,
  with its count-down loops over array elements. `Probes` lists the strings
  the walk tests, and the lemmas about the walk are stated over it.
- `Blacklist` (`blacklist.dfy`): the settings guard `Unpack`, the registry
  build `NewConfigBlacklist`, the per-block decision (`BlockBlacklisted` and
  the method `IsBlacklisted`), and batch detection (`Detections` and the
  method `Detect`).
- `Scenarios` (`scenarios.dfy`): worked cases on small trees.

A compiled pattern is a `Matcher = string -> bool`, standing for the regular
expression's string test. Compiling is a parameter `compile: string ->
Option<Matcher>`, where `None` means the pattern text does not compile. Go
iterates maps in a random order. The methods therefore pick the next key with
`:|` from the keys not yet visited, and their contracts hold whatever order is
chosen.

Two points of the code deserve a note:

- Prefix rule. A field that contains a dot applies to type `t` only if it
  starts with `t + "."`. A field without a dot only has to start with `t`,
  so `filebeatx` applies to type `filebeat` with the segment `x`
  (`Paths.UndottedQuirk`). A dotted field equal to the type never applies
  (`Paths.DottedFieldEqualToType`).
- One remaining segment, non-string value. The walk enters the child with
  the segment list minus its head, so no segments remain.

## Model

| member | source | states |
|---|---|---|
| Blacklist.Unpack | vendor/github.com/elastic/beats/x-pack/libbeat/management/blacklist.go:44-56 | an input that is not a map fails with the wrong-type error; a map gives the settings produced by flattening it |
| Blacklist.NewConfigBlacklist | vendor/github.com/elastic/beats/x-pack/libbeat/management/blacklist.go:59-74 | all or nothing: it fails exactly when some pattern does not compile, and the error names such a pattern; otherwise the registry has exactly the settings' keys, each bound to its compiled pattern |
| Paths.Split | vendor/github.com/elastic/beats/x-pack/libbeat/management/blacklist.go:107-110 | splitting the rest of a field on `.` gives at least one segment, no segment contains `.`, and joining the segments gives the rest back |
| Paths.SplitJoin | vendor/github.com/elastic/beats/x-pack/libbeat/management/blacklist.go:109 | splitting is the inverse of joining, for segments without `.` |
| Paths.SegmentsFor | vendor/github.com/elastic/beats/x-pack/libbeat/management/blacklist.go:99-110 | the prefix is `t + "."` for a field with a dot and `t` otherwise; the entry does not apply when the field does not start with it; when it applies, the field is the prefix followed by the joined segments; no segment contains `.`; there are no segments exactly when the field is just the prefix |
| Paths.SegmentsForDotted | vendor/github.com/elastic/beats/x-pack/libbeat/management/blacklist.go:99-110 | the field `t + "." + path` applies to type `t` and yields exactly the segments of the path |
| Paths.SegmentsForUndotted | vendor/github.com/elastic/beats/x-pack/libbeat/management/blacklist.go:99-110 | a field without a dot applies to type `t` iff it starts with `t`; the whole rest is then one segment, or no segment when nothing is left |
| Paths.UndottedQuirk | vendor/github.com/elastic/beats/x-pack/libbeat/management/blacklist.go:99-110 | the field `filebeatx` applies to type `filebeat` with the segment `x` |
| Paths.DottedFieldEqualToType | vendor/github.com/elastic/beats/x-pack/libbeat/management/blacklist.go:99-104 | a dotted field equal to the block type does not apply to it |
| ConfigTree.IndexOf | vendor/github.com/elastic/beats/x-pack/libbeat/management/blacklist.go:132-142 | a field lookup finds the first field with that name, and finds nothing exactly when no field has that name |
| Traversal.IsBlacklistedBlock | vendor/github.com/elastic/beats/x-pack/libbeat/management/blacklist.go:120-179 | the walk with its early returns and count-down loops decides exactly the specified traversal: dictionary case with zero, one or more segments, array fan-out, and false for scalars |
| Traversal.ProbesDecide | vendor/github.com/elastic/beats/x-pack/libbeat/management/blacklist.go:120-179 | a block is hit exactly when the pattern accepts one of the walk's candidate strings; the candidates depend on the path and the tree only |
| Traversal.Monotone | vendor/github.com/elastic/beats/x-pack/libbeat/management/blacklist.go:125-154 | a pattern that accepts more strings hits at least the same trees |
| Traversal.ArrayTransparent | vendor/github.com/elastic/beats/x-pack/libbeat/management/blacklist.go:167-174 | wrapping a dictionary or array in any number of one-element arrays consumes no segment and leaves the decision unchanged |
| Traversal.ArrayFanOut | vendor/github.com/elastic/beats/x-pack/libbeat/management/blacklist.go:150-174 | an array is hit exactly when one of its parts is: fan-out is a logical or over the elements |
| Traversal.ArrayOrderIrrelevant | vendor/github.com/elastic/beats/x-pack/libbeat/management/blacklist.go:152-172 | arrays with the same elements get the same decision, so the last-to-first visiting order does not matter |
| Blacklist.IsBlacklisted | vendor/github.com/elastic/beats/x-pack/libbeat/management/blacklist.go:92-118 | whatever order the entries are visited in, the result is true exactly when the block can be read and some entry that applies to its type hits it |
| Blacklist.IrrelevantEntry | vendor/github.com/elastic/beats/x-pack/libbeat/management/blacklist.go:98-115 | adding or replacing an entry whose field does not apply to a block type never changes the decision for blocks of that type |
| Blacklist.Detect | vendor/github.com/elastic/beats/x-pack/libbeat/management/blacklist.go:77-90 | the nested loops produce exactly the specified detections, in group order and then block order |
| Blacklist.GroupDetectionsAppend | vendor/github.com/elastic/beats/x-pack/libbeat/management/blacklist.go:80-87 | the detections for two consecutive runs of blocks are the two runs' detections in order |
| Blacklist.DetectionsAppend | vendor/github.com/elastic/beats/x-pack/libbeat/management/blacklist.go:79-88 | the detections for two consecutive runs of groups are the two runs' detections in order |
| Blacklist.GroupDetectionsExact | vendor/github.com/elastic/beats/x-pack/libbeat/management/blacklist.go:80-87 | a group yields exactly one config error per blacklisted block: as many errors as positions of blacklisted blocks, each naming the group's type, so never more than blocks; none exactly when no block is blacklisted |
| Blacklist.DetectionsExact | vendor/github.com/elastic/beats/x-pack/libbeat/management/blacklist.go:77-90 | every error is a config error naming the type of a group that has a blacklisted block; the type of every blacklisted block is reported; clean or empty input gives no errors |
| Blacklist.DetectionsCount | vendor/github.com/elastic/beats/x-pack/libbeat/management/blacklist.go:77-90 | the batch yields exactly as many errors as there are blacklisted blocks, summed over all groups |
| Blacklist.UnreadableBlockIgnored | vendor/github.com/elastic/beats/x-pack/libbeat/management/blacklist.go:93-96 | a block whose configuration cannot be read gives no detection and leaves the detections of the blocks around it unchanged |
| Scenarios.SecretValue | vendor/github.com/elastic/beats/x-pack/libbeat/management/blacklist.go:130-135 | with one segment, a string field is tested directly: `{secret: "abc"}` is hit by `abc` and not by `xyz` |
| Scenarios.ForbiddenFieldPresent | vendor/github.com/elastic/beats/x-pack/libbeat/management/blacklist.go:123-128 | with no segments, a field name alone decides, whatever its value |
| Scenarios.ArrayElement | vendor/github.com/elastic/beats/x-pack/libbeat/management/blacklist.go:150-156 | one matching array element is enough; an array with no matching element is not hit |
| Scenarios.NestedNonString | vendor/github.com/elastic/beats/x-pack/libbeat/management/blacklist.go:136-143 | a non-string value at the last segment is entered with no segments left, and its field names are tested |
| Scenarios.OutputSecretSegments | vendor/github.com/elastic/beats/x-pack/libbeat/management/blacklist.go:99-110 | the entry `output.secret` applies to type `output` with the single segment `secret` |
| Scenarios.SecretBlockBlacklisted | vendor/github.com/elastic/beats/x-pack/libbeat/management/blacklist.go:92-118 | the block `{secret: "abc"}` of type `output` is blacklisted by the entry `output.secret` with a pattern accepting `abc` |
| Scenarios.DetectSecretBlock | vendor/github.com/elastic/beats/x-pack/libbeat/management/blacklist.go:77-96 | a blacklisted block is reported once, and an unreadable block next to it is not reported |

## Left out

- `licenser/callback_watcher.go` is not part of this model. It only calls the closures it was given, when they are set, so there is no logic in it to verify.
- Regular-expression semantics. A compiled pattern is any string test (`Matcher`), and compiling is the parameter `compile`. The regular-expression dialect and its compiler are a foreign library.
- Blacklist.Unpack: flattening nested keys into dotted ones and rendering values as text are a foreign helper. The model takes them as the parameter `flatten` and keeps only the check that the input is a map.
- Reading a block's raw settings into a configuration tree is a foreign helper. Its outcome is the block's `config`, and `None` stands for the read failing. Coercion of numbers and booleans to text is folded into `Scalar(Some(text))`.
- Field names in a configuration dictionary are unique. The association list does not enforce this; lookups see the first field with a name.
- Error message text and the `Errors` wrapper are not modelled. A detection keeps only its `ConfigError` tag and the block type. The compile error keeps only the offending pattern.
- Calling `Detect` twice on the same registry and blocks gives the same result. There is no separate lemma for this: `Detect`'s result equals the function `Detections` of its inputs.
- Pointers and nil results are replaced by values and `Result`.
