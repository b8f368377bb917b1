# A verified model of argp, and of five smaller components

This project models, in Dafny, the option-tree library argp as the repository
vendors it (`src/glibc-2.43/argp/`), the streaming JSON printer of its
benchmarks, the grid that its `ls` prints, the growable array behind `ls`, and
the walk over ancillary data of its socket header. `dafny verify dfyconfig.toml`
checks everything.

argp takes a tree of option tables and does two things with it. For `--help` it
flattens the tree into one list of entries (a HOL), in which the ownership of
short options is encoded as positions in one shared string; it merges such
lists, sorts them with a comparator of many levels, prints them with cluster
headers, and enumerates all combinations of usage alternatives with a byte
vector that works like an odometer. For parsing it compiles the same tree into
flat tables and drives the users' parsers through a protocol of keys. The main
results are:

- **Short options.** After any `argp_hol`, the shared string is the list of
  first occurrences of the short keys in preorder, and walking an entry's
  options against the string recovers exactly the first declarations
  (`HolBuild.ArgpHol`, `HolSpec.TreeCode`, `HolCode.DecodeInvertsEncode`), before
  and after sorting (`HolCode.SortingKeepsOwnership`).
- **Order.** The comparator agrees, for all entries, with the lexicographic order
  of a key computed from each entry alone, and so keeps the four promises of its
  comment (`HolOrder.EntryCmpIsLex`, `HolOrder.EntryCmpIsTotalOrder`). Which order
  it is, is said on the options and clusters themselves
  (`HolCompare.PlacesDecide`, `HolCompare.NamesDecide`), as are the help group and
  the cluster of every entry (`HolSpec.EntryGroup`, `HolClusters.ClusterOfEntry`).
- **Headers.** Whatever the options of a tree are, the entries of a cluster stand
  together in its help, and the cluster's header is printed at most once, if and
  only if no other cluster has the same groups and indices from the root on
  (`HolTwins.ContiguousIffUnique`, `HolTwins.HeaderOnceIffUnique`). This fails for
  trees that argp accepts: a child without group and header is merged into its
  parent's cluster, and its own children count from 0 again
  (`HolTwins.MergedChildRepeatsHeader`).
- **Usage.** From a zeroed vector the usage loop prints every combination of
  alternatives exactly once and leaves the vector zeroed; it ends if and only if
  no argp has more alternatives than a `char` can count
  (`UsageLoop.PrintUsage`, `UsageCount.EveryCombinationOnce`,
  `UsageCount.LoopEndsIffSmall`, `UsageCount.LongDocNeverEnds`).
- **Tables.** The tables are laid out in preorder, every write fits the computed
  sizes, and conflicts go to the first declaration in the tree
  (`Convert.ConvertTree`, `Convert.ShortGroup`, `Tables.FirstNamesFirst`). With
  ARGP_NO_ARGS the short string fits if and only if some option needs less than
  the three characters counted for it (`Convert.StringFitsIff`). A packed long
  option decodes to its group exactly for the first 127 groups
  (`Tables.PackRoundTrip`).
- **Help and parser agree** on who owns a short option, given that aliases have
  the documentation flag of their real option and that no short key is one of the
  characters `:`, `;`, `-` and `+`, which getopt reads in ways of its own
  (`Agreement.HelpAndParserAgree`). Exactly when they agree on an option, for all
  trees and keys, is `Agreement.AgreeIffAccepted`; trees on which they do not are
  given for each reason (`Agreement.DocAliasDisagrees`, `Agreement.LostKeys`,
  `Agreement.PrefixTakesKey`).
- **The run.** User parsers and getopt are arbitrary functions of everything that
  has happened. For all of them, each step of the main loop is the one relation
  `ParserStep.Step`, each group's calls follow the protocol
  INIT (opt | ARG | ARG ARGS)* NO_ARGS? END? (SUCCESS? | ERROR) FINI, a result of
  0 means that every group was told of success and, if no index is wanted, that
  everything was parsed, arguments left over become EINVAL, each parser sees its
  own hook and the number of arguments it has taken, and every argp with a parser
  has a group (`ParserRun.Parser.Parse`, `ParserOutcome.SuccessMeansEnd`,
  `ParserCount.OffersCounted`, `ParserTrace.GroupProtocol`,
  `Preorder.GroupsAreOwners`, `ArgpRun.Run`). As long as the parsers leave `next`
  in a quoted region, getopt is not consulted and the rest of argv is offered as it
  is (`ParserStep.QuotedRun`). A long name reaches the first option of that name in
  preorder (`LongNames.LongNameReaches`).
- **The grid of ls.** Read down its columns, the printed text is the names in the
  order of the comparators, and then padding (`LsListing.PrintDir`).

## Layout

| files | contents |
|---|---|
| `wrappers.dfy`, `sequences.dfy`, `arithmetic.dfy`, `lex_order.dfy`, `first_occurrence.dfy` | options; concatenation; products; lexicographic order; first occurrences |
| `argp_tree.dfy` | the option tree of `argp.h` |
| `hol_code.dfy`, `hol_spec.dfy`, `hol_build.dfy` | the short-option code, what a HOL lists, and the code that builds it |
| `hol_order.dfy`, `hol_compare.dfy`, `hol_listing.dfy`, `hol_twins.dfy`, `hol_clusters.dfy` | the comparator; what decides it; contiguous clusters and headers; the tree shapes for which headers are printed once; the cluster of each argp |
| `usage_count.dfy`, `usage_loop.dfy` | alternatives as numbers; the loop that counts them |
| `tables.dfy`, `preorder.dfy`, `convert.dfy`, `long_names.dfy` | the parser's tables, the argps that have a group, the code that fills them, and where a long name leads |
| `getopt_short.dfy`, `agreement.dfy` | which short options getopt returns, and how help and parser compare |
| `protocol.dfy`, `parser_trace.dfy`, `parser_step.dfy`, `parser_count.dfy`, `parser_outcome.dfy`, `parser_run.dfy`, `argp_run.dfy` | the key protocol, traces, the step relation, arguments taken, the outcome of a run, the driver, and whole runs on a tree |
| `json_text.dfy`, `json_trip.dfy`, `json_lib.dfy` | the printed text and an RFC 8259 reader; the round trip; the printer |
| `dynamic.dfy`, `ls_grid.dfy`, `ls_listing.dfy`, `cmsg.dfy` | the growable array; the grid of `ls`; its listing from names to lines; ancillary data |

## Conventions and assumptions

- A vector that C ends with a null entry is the sequence of the entries before
  it. An argp or a cluster is identified, where the code compares addresses, by
  its preorder position.
- The slots of the usage vector are signed 8-bit chars. Packed option values are
  32-bit ints, with key and group number as in `argp-parse.c`. `size_t` has 8
  bytes and `struct cmsghdr` 12.
- Characters are compared in the C locale.
- qsort is taken by its contract: a rearrangement in which no entry follows one
  it compares less than.
- User parsers and getopt are functions of the history of events. Where a
  statement needs more of them it says so: `ParserTrace.Polite` (a refusal leaves
  `next` alone), `Forward` (`next` is not moved back and the other shared fields
  are left alone), `OwnSlice` (only a group's own child inputs are written).
  Getopt returns only values it can return for the tables it is given, of which
  the long options are those of at most 127 groups (`ParserTrace.LongOptsAreKnown`).
- The JSON reader follows sections 2 to 5 and 7 of RFC 8259 for texts without
  fractions, exponents, escapes and the literals true, false and null; on such a
  text it is a strict reader.

## Where code and documentation differ

The model follows the code.

- `argp-help.c:872-873`: the comment says that entries with a short option come
  before those without; the sign of the comparison puts them after.
- `argp-parse.c:692-695`: an accepted ARGP_KEY_ARGS sets `next` to the end in every
  case; `argp.h:150-154` says that the parser may adjust it to what it has consumed.
- `argp.h:138-140`: no calls are said to follow ARGP_KEY_ERROR; ARGP_KEY_FINI does.
- `argp.h:129-131` lists neither ARGP_KEY_ARGS nor runs in which a parser's error
  cuts the sequence short; the protocol proved here is the longer one above.

## Model

| member | source | states |
|---|---|---|
| FirstOccurrence.DedupAt | src/glibc-2.43/argp/argp-help.c:553-576 | the character behind the keys listed before position i is the key of i if and only if i is the first occurrence of its key: the fact that lets a walk decode the string |
| HolCode.WalkCountsFirsts | src/glibc-2.43/argp/argp-help.c:553-576 | the walk's pointer counts first occurrences over the whole list, not only over the entry walked |
| HolCode.DecodeInvertsEncode | src/glibc-2.43/argp/argp-help.c:553-576 | in any coded list, the walk accepts option j of entry i if and only if it is the first declaration of its key in the list |
| HolCode.OwnedInOrder | src/glibc-2.43/argp/argp-help.c:433-502 | the keys that the first m entries own, read in order, are the string's prefix up to the next entry's pointer: nothing is lost or owned twice |
| HolCode.SortingKeepsOwnership | src/glibc-2.43/argp/argp-help.c:904-913 | after any rearrangement of the entries, each character of the string is still owned exactly once |
| HolCode.CodeIsUnique | src/glibc-2.43/argp/argp-help.c:918-1034 | two coded lists with the same items have the same string and the same pointers, so it does not matter in which steps make_hol and hol_append have built them |
| HolSpec.ItemCount | src/glibc-2.43/argp/argp-help.c:455-497 | the number of entries that make_hol reserves is the number it fills in |
| HolSpec.DedupShorts | src/glibc-2.43/argp/argp-help.c:455-466 | the string never outgrows the bound computed in the first pass |
| HolSpec.TreeItemsOccs | src/glibc-2.43/argp/argp-help.c:1013-1034 | the listing of a tree contains every declaration of the tree, in preorder, with its argp and the option it is an alias of |
| HolSpec.TreeCode | src/glibc-2.43/argp/argp-help.c:1013-1034 | the short string of a whole tree's HOL is the list of first occurrences of its short keys in preorder |
| HolSpec.EntryGroup | src/glibc-2.43/argp/argp-help.c:472-486 | the help group of every entry of an argp, from the options alone: the last nonzero group given by an option that is no alias, at or before the entry's first option, plus the number of headers (no name, no key, group 0) since; without such an option, the number of headers |
| HolSpec.HelpGroups | src/glibc-2.43/argp/argp-help.c:1685-1694 | the first entry that shows --help and the first that shows --version are in group -1, every other entry where its options have put it |
| HolClusters.PlacesAreChildren | src/glibc-2.43/argp/argp-help.c:1013-1034 | in the preorder listing of a tree every argp but the root stands behind its parent, with the header, group and index it has among its parent's children |
| HolClusters.ClusterOfEntry | src/glibc-2.43/argp/argp-help.c:1021-1030 | every entry is in the cluster of its argp: none for the root; for any other argp a new one with its own group, header and index, one level below its parent's, if it has a group or a header, and else its parent's |
| HolBuild.FindChar | src/glibc-2.43/argp/argp-help.c:341-350 | true if and only if the character occurs between the two pointers |
| HolBuild.CountOptions | src/glibc-2.43/argp/argp-help.c:455-462 | the two sizes: options that are not aliases, and short options |
| HolBuild.Fill | src/glibc-2.43/argp/argp-help.c:472-498 | the entries filled in are the items of the options with their groups; string and pointers form a code; every write is inside the arrays |
| HolBuild.MakeHol | src/glibc-2.43/argp/argp-help.c:433-502 | a fresh, valid HOL that lists exactly the items of one argp, whose groups are those of HolSpec.EntryGroup |
| HolBuild.MergeStep | src/glibc-2.43/argp/argp-help.c:977-998 | one more option of MORE extends the merged string exactly if it was first in MORE and is not among this list's keys |
| HolBuild.Hol.Append | src/glibc-2.43/argp/argp-help.c:918-1011 | appending keeps the HOL valid: the listing is the concatenation, and the merged string and all pointers are again the code of the joint list |
| HolBuild.ArgpHol | src/glibc-2.43/argp/argp-help.c:1013-1034 | for every tree, a valid HOL whose listing is the tree's items in preorder, with a new cluster for each child that has a group or a header |
| HolBuild.Hol.SetGroup | src/glibc-2.43/argp/argp-help.c:633-666 | the first entry that shows the name gets the group; nothing else changes, and the HOL stays valid |
| HolBuild.HelpHol | src/glibc-2.43/argp/argp-help.c:1685-1694 | the list of _help before sorting: the tree's items, with the entries of help and version in group -1 |
| HolSpec.HelpItemsSame | src/glibc-2.43/argp/argp-help.c:1685-1694 | moving the two entries changes no item but in its group |
| HolBuild.RegroupingKeepsCode | src/glibc-2.43/argp/argp-help.c:658-666 | changing groups leaves the short-option code a code |
| HolBuild.ShortIterate | src/glibc-2.43/argp/argp-help.c:553-576 | the callback is called for exactly the visible options that own a character, in order |
| HolBuild.ArglessFit | src/glibc-2.43/argp/argp-help.c:1453-1466 | the short options printed without argument, over all entries in any order, are among the string's characters, none more often than there |
| HolBuild.AllArglessIs | src/glibc-2.43/argp/argp-help.c:1370-1380 | the keys printed are exactly those of visible options, owning their key, that take no argument and are not kept out of the usage message, nor is the option they are an alias of |
| HolBuild.UsageShorts | src/glibc-2.43/argp/argp-help.c:1453-1466 | hol_usage's buffer of strlen + 1 takes exactly these options, and every write, the final NUL included, is inside it; a key is printed if and only if some visible option without argument owns it |
| HolOrder.GroupCmpIsLex | src/glibc-2.43/argp/argp-help.c:671-681 | group_cmp orders groups as 0, 1, ..., n, -m, ..., -1 |
| HolOrder.CousinCmpIsLex | src/glibc-2.43/argp/argp-help.c:683-723 | comparing clusters of one depth, with the shortcut for equal parents, is comparing their root paths of groups and indices |
| HolOrder.ClusterCmpIsLex | src/glibc-2.43/argp/argp-help.c:725-755 | comparing clusters of any depths is comparing root paths, a shorter prefix first |
| HolOrder.StrCaseCmpIsLex | src/glibc-2.43/argp/argp-help.c:885-890 | the case-insensitive comparison of names is the order of their lower-case characters |
| HolOrder.NamesCmpIsLex | src/glibc-2.43/argp/argp-help.c:836-895 | the criteria after groups and clusters (documentation last, first letter, case, short option, long name) are one lexicographic order |
| HolOrder.EntryCmpIsLex | src/glibc-2.43/argp/argp-help.c:785-895 | hol_entry_cmp agrees in sign, for all entries, with the order of a key of each entry alone; which order it is, the members of HolCompare say |
| HolOrder.EntryCmpIsTotalOrder | src/glibc-2.43/argp/argp-help.c:785-895 | the sign is antisymmetric, and all four transitivity clauses of the comment hold |
| HolCompare.LowerIs | src/glibc-2.43/argp/argp-help.c:859-862 | two characters are compared as equal if and only if they are one, or one letter in two cases; no capital is left |
| HolCompare.LowerAllAt | src/glibc-2.43/argp/argp-help.c:885-890 | names are compared by the lower-case forms of their characters, one by one |
| HolCompare.NamesAreSeen | src/glibc-2.43/argp/argp-help.c:836-857 | what the comparator reads from an entry: the first visible owned short key or 0, the first visible name, and for a documentation entry whether that name begins with a character other than '-' behind its white space, and its tail from the first letter or digit on |
| HolCompare.PlacesDecide | src/glibc-2.43/argp/argp-help.c:811-833 | the groups of the outermost clusters decide, in the order 0, ..., n, -m, ..., -1; then an entry outside all clusters goes first; within one cluster the groups decide in the same order |
| HolCompare.SiblingsDecide | src/glibc-2.43/argp/argp-help.c:683-698 | of entries of two clusters within one, the one of the earlier group goes first, and in one group the one of the later child |
| HolCompare.NamesDecide | src/glibc-2.43/argp/argp-help.c:836-895 | within one group and cluster, documentation that does not look like an option follows all else; then the first characters decide whatever their case, then small letters go first, then entries without a short option; entries without one go by their names whatever the case |
| HolListing.BlockIsContiguous | src/glibc-2.43/argp/argp-help.c:797-833 | the entries of a cluster whose path of groups and indices no other cluster shares, and of its descendants, form one block in every sorted listing |
| HolListing.OwnEntriesFirst | src/glibc-2.43/argp/argp-help.c:725-755 | inside the block the cluster's own entries precede those of its sub-clusters |
| HolListing.DistinctMeansUnique | src/glibc-2.43/argp/argp-help.c:683-723 | all paths are unique if and only if sibling clusters differ in group or index |
| HolTwins.TwinsInterleave | src/glibc-2.43/argp/argp-help.c:797-833 | for any two clusters of a tree with one path there is a tree of the same shape in whose sorted help an entry of the one stands between two of the other, and a header of the other is printed twice |
| HolTwins.ContiguousIffUnique | src/glibc-2.43/argp/argp-help.c:797-833 | a cluster's entries stand together in the help of every tree of a shape if and only if no other cluster of the shape has its path |
| HolTwins.ContiguousIffDistinct | src/glibc-2.43/argp/argp-help.c:797-833 | all clusters' entries do so if and only if sibling clusters differ in group or index |
| HolTwins.HeaderOnceIffUnique | src/glibc-2.43/argp/argp-help.c:1175-1206 | a cluster's header is printed at most once in the help of every tree of a shape if and only if no other cluster of the shape has its path |
| HolTwins.MergedChildMakesTwins | src/glibc-2.43/argp/argp-help.c:1021-1030 | a concrete tree whose clusters agree in parent, group and index: a child without group and header numbers its own children from 0 in its parent's cluster |
| HolTwins.MergedChildRepeatsHeader | src/glibc-2.43/argp/argp-help.c:1175-1206 | with options for that tree, the test in comma is true at the first and the third entry of its sorted help, for one cluster |
| HolListing.TreeClustersClosed | src/glibc-2.43/argp/argp-help.c:1013-1034 | the clusters of a tree carry their depths and include their parents, and every item is in one of them or in the outer cluster |
| HolListing.ListingOfTree | src/glibc-2.43/argp/argp-help.c:1685-1694 | the entries that _help sorts, in any order, have options and carry clusters of the tree with their depths |
| HolListing.TestIsDue | src/glibc-2.43/argp/argp-help.c:1175-1206 | comma's test, which looks at the previous printed entry only, never misses a header of which nothing has been printed above; where the cluster's entries stand together it is true for no other |
| HolListing.ListedIs | src/glibc-2.43/argp/argp-help.c:1233-1285 | an entry is listed if and only if some visible option of it has a name or owns a short key |
| HolListing.HeaderAtIs | src/glibc-2.43/argp/argp-help.c:1175-1206 | comma's test is true exactly where the entry is listed, its cluster has a header that is not empty, and the last entry before it that is listed or starts a group, if any, is outside that cluster |
| HolListing.HolHelp | src/glibc-2.43/argp/argp-help.c:1335-1345 | for any list of entries, headers are printed at exactly the positions at which comma's test is true of the entry printed before, and what that means is said by the options and clusters |
| HolListing.HeaderOnce | src/glibc-2.43/argp/argp-help.c:1175-1206 | among the positions at which HolHelp prints headers no two are of one cluster whose entries stand together |
| UsageCount.MultipleMeansLines | src/glibc-2.43/argp/argp-help.c:1484-1500 | an argp has a slot if and only if its args_doc has more than one line |
| UsageCount.LinesJoin | src/glibc-2.43/argp/argp-help.c:1517-1530 | the alternatives of a doc, with newlines between them, are the doc |
| UsageCount.LinesAreWhole | src/glibc-2.43/argp/argp-help.c:1517-1530 | no alternative contains a newline |
| UsageCount.CharIs | src/glibc-2.43/argp/argp-help.c:1545-1557 | a level stored in a slot is the number of eight signed bits that equals it modulo 256 |
| UsageCount.StepCounts | src/glibc-2.43/argp/argp-help.c:1502-1560 | one advancing pass adds one to the number the vector stands for, or turns the last one into 0 and passes the carry on |
| UsageCount.StepIdle | src/glibc-2.43/argp/argp-help.c:1502-1560 | a pass that is not to advance changes no slot |
| UsageCount.DigitsValue | src/glibc-2.43/argp/argp-help.c:1502-1560 | every number below the product of the counts is the value of a vector that fits |
| UsageCount.ValInjective | src/glibc-2.43/argp/argp-help.c:1502-1560 | two vectors that fit and stand for the same number are equal |
| UsageCount.BigNeverPasses | src/glibc-2.43/argp/argp-help.c:1545-1557 | an argp with more alternatives than a char can count never passes the advance on: its slot wraps around first |
| UsageCount.LoopEndsIffSmall | src/glibc-2.43/argp/argp-help.c:1698-1748 | the usage loop ends if and only if no argp has more than 128 alternatives, and then after the product of the counts |
| UsageCount.LongDocNeverEnds | src/glibc-2.43/argp/argp-help.c:1698-1748 | an args_doc of 129 lines, for which the usage loop does not end |
| UsageCount.EveryCombinationOnce | src/glibc-2.43/argp/argp-help.c:1698-1748 | each combination of alternatives is the vector of exactly one pass |
| UsageLoop.SelectLine | src/glibc-2.43/argp/argp-help.c:1517-1530 | the loop over newlines stops at the line that the level selects, and knows whether it is the last |
| UsageLoop.ArgsUsage | src/glibc-2.43/argp/argp-help.c:1502-1560 | the in-place pass prints what the vector selects, advances exactly its own slots as the odometer does, and leaves all others alone |
| UsageLoop.PrintUsage | src/glibc-2.43/argp/argp-help.c:1698-1748 | the loop prints one line for each combination, in counting order, and leaves all slots zero |
| Tables.GroupCount | src/glibc-2.43/argp/argp-parse.c:434-463 | the number of groups laid out is the one calc_sizes computes |
| Tables.GroupsAreLaidOut | src/glibc-2.43/argp/argp-parse.c:361-393 | parents come before their children, a parent's slice has the child's index, and no two children of a parent share one |
| Preorder.GroupsAreOwners | src/glibc-2.43/argp/argp-parse.c:306-383 | the groups are, in preorder, exactly the argps that have an options vector or a parser, each once, with its own options, parser flag, number of children and index |
| Preorder.ParserHasGroup | src/glibc-2.43/argp/argp-parse.c:444-450 | every argp with a parser has a group, which calls it |
| Tables.SlicesInOrder | src/glibc-2.43/argp/argp-parse.c:371-380 | the child-input slices of different groups do not overlap |
| ParserTrace.SlotsDiffer | src/glibc-2.43/argp/argp-parse.c:371-393 | no two groups find their inputs in the same slot, and each finds it in its parent's slice |
| Tables.ShortStringMembers | src/glibc-2.43/argp/argp-parse.c:310-334 | a character other than ':' is in the short string if and only if some group declares it |
| ArgpTree.RealAtIs | src/glibc-2.43/argp/argp-parse.c:312-316 | the option an alias refers to is the last one before it that is no alias, or the first of all |
| Tables.FirstHolderFound | src/glibc-2.43/argp/argp-parse.c:720-736 | the first place of any character behind the prefix lies in the part of the first group whose part contains it |
| Tables.FirstDeclarerFound | src/glibc-2.43/argp/argp-parse.c:720-736 | the first place of a key in the string lies in the part of the first group that declares it |
| Tables.PackRoundTrip | src/glibc-2.43/argp/argp-parse.c:345-353 | decoding a packed long option, stored in 32 bits, gives back the key if and only if it has 24 bits, and the group if and only if it is one of the first 127; for these the value never collides with a short key or a special value |
| Tables.GroupNumbersWrap | src/glibc-2.43/argp/argp-parse.c:717-746 | the 128th group's options decode to group -128, and the 256th group's look like short options |
| Tables.FirstNamesNames | src/glibc-2.43/argp/argp-parse.c:336-363 | every name declared is in the table of long options, and no other |
| Tables.FirstNamesFirst | src/glibc-2.43/argp/argp-parse.c:336-363 | a name's entry is its first declaration, with that group's number, and it is there once |
| LongNames.LongNameReaches | src/glibc-2.43/argp/argp-parse.c:336-363 | a long name has one entry, that of the first non-documentation option of the name in preorder; for at most 127 groups its value leads to that option's group, with the option's own key if this has 24 bits |
| Convert.CalcSizes | src/glibc-2.43/argp/argp-parse.c:434-463 | the sizes computed for a tree |
| Convert.FindLongOption | src/glibc-2.43/argp/argp-parse.c:181-197 | the position of the name, or negative if and only if it is not in the table |
| Convert.Conversion.constructor | src/glibc-2.43/argp/argp-parse.c:398-423 | the empty tables, terminated, with the prefix for ARGP_IN_ORDER or ARGP_NO_ARGS if the storage has a place for it |
| Convert.Conversion.AddShort | src/glibc-2.43/argp/argp-parse.c:310-334 | a short option that its real option does not make documentation is appended with its colons, and the string stays terminated |
| Convert.Conversion.AddLong | src/glibc-2.43/argp/argp-parse.c:336-363 | a long option is entered unless its name is there, so that the table stays the list of first names |
| Convert.Conversion.AddGroup | src/glibc-2.43/argp/argp-parse.c:306-383 | one argp's options and group are entered behind the others, within the room left |
| Convert.ConvertOptions | src/glibc-2.43/argp/argp-parse.c:293-396 | a whole tree's groups are entered in preorder behind those before, using exactly the room calc_sizes counts for it |
| Convert.StringFitsIff | src/glibc-2.43/argp/argp-parse.c:475-482 | the short string fits its storage without ARGP_NO_ARGS always, and with it if and only if some option is no short option with an optional argument |
| Convert.NoOptionsDoNotFit | src/glibc-2.43/argp/argp-parse.c:409-413 | with ARGP_NO_ARGS the string of a parser without options does not fit |
| Convert.ConvertTree | src/glibc-2.43/argp/argp-parse.c:475-500 | sizing and filling for any tree and flags for which the short string fits: the tables hold the preorder groups, exactly as many as computed, and nothing exceeds its size; the groups are those of the argps with options or a parser, in preorder |
| Convert.ShortGroup | src/glibc-2.43/argp/argp-parse.c:720-736 | strchr and the scan find, for any character, the first group whose part of the string contains it, or the first group of all for the '-' or '+' in front of the string |
| Tables.HolderDeclares | src/glibc-2.43/argp/argp-parse.c:310-334 | for a character other than the colon that is the first group that declares it |
| Agreement.GroupsOccs | src/glibc-2.43/argp/argp-parse.c:298-396 | the groups together declare exactly what the tree declares, in preorder |
| Agreement.OwnerIsFirst | src/glibc-2.43/argp/argp-help.c:1013-1034 | the entry that owns a short option belongs to the argp with the first declaration of its key |
| Agreement.FirstAccepted | src/glibc-2.43/argp/argp-parse.c:310-334 | the first declaration that the parser accepts is in the first group that declares the key |
| GetoptShort.ReturnedIsDeclared | src/glibc-2.43/posix/getopt.c:388-402 | behind a leading '-' or '+', which it skips, getopt returns only characters that some group declares |
| GetoptShort.OrdinaryIsReturned | src/glibc-2.43/posix/getopt.c:609-653 | where no key is a colon, a semicolon, '-' or '+', every declared key is returned and reaches the first group that declares it |
| GetoptShort.ShortArgument | src/glibc-2.43/argp/argp-parse.c:317-327 | if no special key is declared, getopt finds behind the first place of a key no colon, one or two, exactly as the first option that declares the key takes no argument, requires one, or has an optional one |
| Agreement.FirstIffAccepted | src/glibc-2.43/argp/argp-parse.c:310-334 | the argp under which the help lists a short option has the first group that declares it if and only if it has a declaration of it that is no alias of a documentation option |
| Agreement.AgreeIffAccepted | src/glibc-2.43/argp/argp-parse.c:720-736 | the option letter reaches the argp under which the help lists it if and only if getopt returns it and that argp declares it as an option (or, for the character in front of the string, has the first group); otherwise it reaches another one, or none |
| Agreement.LostKeys | src/glibc-2.43/posix/getopt.c:609-653 | the keys ':' and ';', a '-' or '+' in front, and a W before a semicolon are listed by the help, but no group is called for them |
| Agreement.PrefixTakesKey | src/glibc-2.43/argp/argp-parse.c:720-736 | with ARGP_NO_ARGS a child's option + is given to the root's group |
| Agreement.DocAliasDisagrees | src/glibc-2.43/argp/argp-parse.c:310-334 | trees on which the help lists a short option under one argp while the parser calls another, or nobody |
| Agreement.HelpAndParserAgree | src/glibc-2.43/argp/argp.h:176-182 | they agree on every short option of a tree in which no short option is an alias of a documentation option and no short key is a colon, a semicolon, '-' or '+', whatever the flags |
| Protocol.DoneMeansProtocol | src/glibc-2.43/argp/argp.h:123-140 | a key sequence that reaches the last phase splits into INIT, options and arguments, NO_ARGS?, END?, SUCCESS? or ERROR, and FINI |
| ParserTrace.GroupProtocol | src/glibc-2.43/argp/argp.h:123-140 | the keys one group has received in a finished run have that form, and contain SUCCESS or ERROR as the outcome says |
| ParserTrace.TreeIsLaidOut | src/glibc-2.43/argp/argp-parse.c:361-393 | the groups of every tree meet what the driver asks of its groups: parents first, and a slot for each child |
| ParserTrace.LongOptsAreKnown | src/glibc-2.43/argp/argp-parse.c:345-353 | the table of long options of at most 127 groups holds only values that the driver takes for long options of a group that exists |
| ParserTrace.HooksAfter | src/glibc-2.43/argp/argp-parse.c:229-248 | a call with the group's own hook keeps every group's hook its own |
| ParserCount.CountsAfter | src/glibc-2.43/argp/argp-parse.c:229-248 | a call with the number of arguments its group has taken, as the accepted offers before it say, keeps that true of all calls |
| ParserCount.OffersCounted | src/glibc-2.43/argp/argp-parse.c:686-704 | an argument offered until it is accepted adds to the accepting group, and to no other, the distance from its index to where next is left, or to the end if all were offered |
| ParserTrace.VerbatimStep | src/glibc-2.43/argp/argp-parse.c:776-861 | consecutive offers of quoted arguments follow one another in the order of argv |
| ParserTrace.WrapperPassesInput | src/glibc-2.43/argp/argp-parse.c:526-531 | the first child of a group without a parser starts with that group's own input |
| ParserStep.ThreadedJoin | src/glibc-2.43/argp/argp-parse.c:662-684 | offers that find the state as the offer before has left it can be put together |
| ParserStep.QuotedStep | src/glibc-2.43/argp/argp-parse.c:776-861 | a step that does not consult getopt, behind a "--" or after getopt has given up, offers the argument at next, or reports the end |
| ParserStep.QuotedRun | src/glibc-2.43/argp/argp-parse.c:776-861 | for any parsers: while they leave next in a quoted region, or getopt has given up, no step of a run consults getopt, and each offers the element of argv at which the step before has left next |
| ParserStep.SweepingStep | src/glibc-2.43/argp/argp-parse.c:581-646 | one more group in a sweep: the groups called are those due, the state is handed on, and a strict sweep stops at an error |
| ParserOutcome.CallsAreOrdered | src/glibc-2.43/argp/argp-parse.c:516-646 | over a whole run INIT, NO_ARGS and ERROR reach groups of ascending number only, and END, SUCCESS and FINI of descending number |
| ParserOutcome.SuccessMeansEnd | src/glibc-2.43/argp/argp-parse.c:577-605 | after a run that returns 0 each group with a parser has received END if and only if everything was parsed, and NO_ARGS if and only if besides it has taken no argument |
| ParserRun.Parser.GroupParse | src/glibc-2.43/argp/argp-parse.c:229-248 | a group with a parser gets exactly one call, with its own hook and input, the state as it stands, and as arg_num the number of arguments it has taken; one without refuses and nothing changes |
| ParserRun.Parser.TryGroup | src/glibc-2.43/argp/argp-parse.c:674-690 | an argument is offered by itself and, if refused, with next put back, together with all that remain |
| ParserRun.Parser.ParseArg | src/glibc-2.43/argp/argp-parse.c:656-708 | the groups are asked in order until one does not refuse; that one and no other is credited with what next has passed; an argument all refuse is put back |
| ParserRun.Parser.ParseOpt | src/glibc-2.43/argp/argp-parse.c:710-770 | a short option goes to the group that strchr and the scan over the tables find, a long one to the group in the packed value, with the sign-extended key |
| ParserRun.Parser.AskGetopt | src/glibc-2.43/argp/argp-parse.c:787-822 | what getopt's answer does to next, quoted and try_getopt |
| ParserRun.Parser.ParseNext | src/glibc-2.43/argp/argp-parse.c:772-861 | each step asks getopt first, unless it has given up or next is in a quoted region, and offers as an argument what getopt hands over or the element of argv at next; it is the step relation, keeps all groups between INIT and the end, keeps the balance of next and args_processed, and in a quoted region moves next forward |
| ParserRun.Parser.RunQuoted | src/glibc-2.43/argp/argp-parse.c:776-861 | past a "--", with parsers that do not move back, the loop needs no bound on its steps: it ends, having offered the rest of argv verbatim, in order, without getopt |
| ParserRun.Parser.InitAll | src/glibc-2.43/argp/argp-parse.c:516-539 | INIT goes to all groups in order up to the first error; a child starts with what stood in its parent's slot after the parent's INIT |
| ParserRun.Parser.FinishArgs | src/glibc-2.43/argp/argp-parse.c:577-597 | NO_ARGS goes to exactly the groups that have processed no argument, then END to all, children first, up to the first error |
| ParserRun.Parser.Conclude | src/glibc-2.43/argp/argp-parse.c:614-653 | ERROR goes to all groups, or SUCCESS to all, children first, up to the first error; FINI to all, children first; ARGP_ERR_UNKNOWN becomes EINVAL |
| ParserRun.Parser.Finalize | src/glibc-2.43/argp/argp-parse.c:564-654 | which of these happen for which result; 0 only if everything was parsed or the caller is told how far; arguments left over without a place for the index, and an unknown option, become EINVAL with ERROR told to all; any other error is returned; what is stored as the end index |
| ParserRun.Parser.Run | src/glibc-2.43/argp/argp-parse.c:907-911 | the main loop is a chain of steps up to the first that does not return 0; once getopt has given up, or in a quoted region, with parsers that do not move back, it ends at most one step after as many as there are arguments left |
| ParserRun.Parser.Parse | src/glibc-2.43/argp/argp-parse.c:904-916 | whole runs: INIT calls, a chain of steps, the final sweeps; every answer comes from the parsers and getopt; every call shows its group its own hook and the number of arguments it has taken; every group ends in the last phase, told of an error all or none; 0 means success told to all and, without a place for the index, that next has reached argc; arguments left over and unknown options mean EINVAL; never ARGP_ERR_UNKNOWN; next is accounted for |
| ArgpRun.Run | src/glibc-2.43/argp/argp-parse.c:904-916 | a whole run on the tables compiled from a tree: every argp with a parser has a group whose calls follow the protocol, ERROR goes to all groups or none, 0 means success told to all and, without a place for the index, everything parsed; arguments left over mean EINVAL; each call shows the number of arguments its group has taken; ARGP_ERR_UNKNOWN is never returned |
| JsonTrip.ValueTrip | src/glibc-2.43/benchtests/json-lib.c:23-240 | reading back the text of any value without escapes, before any rest, gives the value and the rest |
| JsonTrip.DocumentTrip | src/glibc-2.43/benchtests/json-lib.c:42-61 | reading back a document gives the tree |
| JsonLib.JsonCtx.constructor | src/glibc-2.43/benchtests/json-lib.c:23-29 | nothing open, the level as given |
| JsonLib.JsonCtx.DocumentBegin | src/glibc-2.43/benchtests/json-lib.c:42-51 | opens the outer object, which is empty |
| JsonLib.JsonCtx.DocumentEnd | src/glibc-2.43/benchtests/json-lib.c:53-61 | closes it, at the level at which it was opened |
| JsonLib.JsonCtx.AttrObjectBegin | src/glibc-2.43/benchtests/json-lib.c:63-75 | the level counts the open containers and the flag says that the innermost is empty; a comma exactly if the enclosing one was not |
| JsonLib.JsonCtx.AttrObjectEnd | src/glibc-2.43/benchtests/json-lib.c:77-88 | back to the enclosing container, which is not empty |
| JsonLib.JsonCtx.AttrText | src/glibc-2.43/benchtests/json-lib.c:90-127 | one more attribute, behind a comma unless it is the first |
| JsonLib.JsonCtx.ArrayBegin | src/glibc-2.43/benchtests/json-lib.c:142-154 | as for objects |
| JsonLib.JsonCtx.ArrayEnd | src/glibc-2.43/benchtests/json-lib.c:156-163 | as for objects |
| JsonLib.JsonCtx.ElementText | src/glibc-2.43/benchtests/json-lib.c:165-199 | one more element, behind a comma unless it is the first |
| JsonLib.JsonCtx.ElementObjectBegin | src/glibc-2.43/benchtests/json-lib.c:213-227 | an object as an element, on a line of its own |
| JsonLib.JsonCtx.ElementObjectEnd | src/glibc-2.43/benchtests/json-lib.c:229-240 | back to the array |
| JsonLib.PrintAttr | src/glibc-2.43/benchtests/json-lib.c:63-163 | driving the calls over any value appends exactly its text and restores the nesting |
| JsonLib.PrintDocument | src/glibc-2.43/benchtests/json-lib.c:23-240 | for every tree of objects, arrays, strings and integers without escapes, the calls emit a text that reads back as the same tree |
| LsGrid.ComparisonsAreLex | src/bin/ls.c:54-85 | the comparators order by name, or by length and then name, and the polarity reverses them |
| LsGrid.ComparisonsAreOrders | src/bin/ls.c:54-85 | they are antisymmetric and transitive, and 0 for equal names only |
| LsGrid.ReverseOrderDescends | src/bin/ls.c:49-52 | the comparison for unsorted names in reverse is the descending order of their places |
| LsListing.CodesAt | src/bin/ls.c:54-85 | names are compared by the codes of their characters, one by one |
| LsListing.UnsortedPlaces | src/bin/ls.c:87-105 | unsorted names come in their own order, or with -r in the opposite one |
| LsListing.SortedPlaces | src/bin/ls.c:54-105 | names sorted by name ascend by their characters, names sorted by width by their lengths and then their characters; with -r they descend |
| LsListing.CellText | src/bin/ls.c:211-227 | the part of a printed line that belongs to a column is the padded name of that cell |
| LsListing.PrintDir | src/bin/ls.c:168-227 | for names sorted by any of the comparators: read down the columns, the printed lines show the sorted names, each followed by at least two spaces and nothing else, and then blank cells, and are no longer than the terminal is wide; a trap if and only if that is narrower than the widest cell |
| LsGrid.CellIndexBijective | src/bin/ls.c:212 | the map from cells to entries is a bijection on the grid, undone by exchanging rows and columns |
| LsGrid.ColumnsReadInOrder | src/bin/ls.c:211-227 | entry k stands in column k / rows, line k mod rows: read down the columns, the grid is the listing |
| LsGrid.ColumnSizes | src/bin/ls.c:204-209 | each column's width is the length of its longest entry |
| LsGrid.GridLines | src/bin/ls.c:211-227 | the printing loop prints the grid's lines, each cell padded to its column |
| LsGrid.PrintGrid | src/bin/ls.c:168-227 | nothing for an empty directory, a trap if and only if the terminal is narrower than the widest cell, and otherwise lines no longer than the terminal is wide that show the padded listing, which fills the grid exactly, with no row more than needed |
| DynamicArray.ConcatAt | src/lib/dynamic.c:56-59 | element i occupies the bytes from i times the element size on |
| DynamicArray.Create | src/lib/dynamic.c:10-27 | an empty array with the capacity asked for or the default, and none for elements without a size |
| DynamicArray.Dynamic.Grow | src/lib/dynamic.c:32-43 | room for one more element; the bytes in use survive |
| DynamicArray.Dynamic.Insert | src/lib/dynamic.c:45-54 | the abstract sequence grows by the element; the others stay |
| DynamicArray.Dynamic.Get | src/lib/dynamic.c:56-59 | the bytes at the offset are the element |
| DynamicArray.InsertAll | src/lib/dynamic.c:32-54 | after n inserts the array holds the n elements in order, and regrowing has copied fewer than 2n |
| Cmsg.PaddingAligns | src/glibc-2.43/bits/socket.h:244-248 | len + padding(len) is align(len), as the comment says |
| Cmsg.NextHdrInside | src/glibc-2.43/bits/socket.h:256-292 | whatever the header says, the next one is behind it and wholly inside the buffer, and there is one if and only if this one is not too small and that one would be inside |
| Cmsg.WalkFrom | src/glibc-2.43/bits/socket.h:234-292 | every walk ends, visits only headers inside the buffer, and advances by at least a header each time |
| Cmsg.WalkVisits | src/glibc-2.43/bits/socket.h:238-292 | on a buffer built with CMSG_LEN and CMSG_SPACE the walk begins with the messages whose headers are inside, in order, and goes on behind them if and only if another header would fit there |
| Cmsg.WalkVisitsAll | src/glibc-2.43/bits/socket.h:238-292 | it visits exactly the messages laid down if and only if the last header is inside the buffer and no other would fit behind the messages, as when the buffer is as long as their CMSG_SPACEs |

## Left out

- Convert.ConvertTree: does not follow the writes of a short string that does not fit its storage; `Convert.StringFitsIff` says exactly when that is.
- ArgpRun.Run: as `ParserRun.Parser.Parse`, takes a bound on the steps and getopt's answers to be those for at most 127 groups.
- ParserRun.Parser.Parse: does not follow long options whose group number has wrapped around, and takes a bound on the number of steps of the main loop, because parsers may move `next` back for ever; a run that exceeds it is reported as unfinished. That it ends by itself is proved in quoted regions, for parsers that do not move back (`ParserRun.Parser.Run`, `ParserRun.Parser.RunQuoted`).
- ParserRun.Parser.ParseOpt: does not follow a packed value whose group number has wrapped around, which the tables contain from the 128th group on (`Tables.GroupNumbersWrap`).
- LsListing.PrintDir: the colour codes and the final blank line are not modelled.
- HolOrder.GroupCmpIsLex: is over unbounded integers; in C the difference of two groups of opposite ends of `int` overflows.
- DynamicArray.Dynamic.Grow: does not model the overflow of `size_t`; a block that is regrown is a new array here, and what realloc copies is counted in elements.
- UsageLoop.ArgsUsage: without the help filter and with translations that keep the newlines of a doc.
- The linked list in which a HOL keeps its clusters, and freeing; clusters are values here.
- The rest of hol_usage and of the long help text.
- Word wrapping in argp-fmtstream.c: the stream is a sink.
- Messages, exit, `--HANG`, the default argps for `--help` and `--version`, failing malloc, translation.
- The shift of argv for ARGP_PARSE_ARGV0 and the program name in parser_init.
- The inside of getopt: it is a function of the history that returns what it can return for its tables. What it makes of a single option letter, without ARGP_LONG_ONLY, is modelled.
- That a user key of 0 cannot be told from ARGP_KEY_ARG by a user's parser: keys are a datatype here.
- JSON doubles, and strings that need escapes: the printer does no escaping.
- dynamic_resize, dynamic_shrink_to_fit, buffer.c, the recursive mode of `ls` and reading directories.
- catgets and the remaining headers and programs of the repository.
