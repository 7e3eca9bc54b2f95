# ros_loader: type strings, hidden action services and the class cache

This project models `ros_loader.py` of rosbridge_library in Dafny. That module
resolves ROS type strings such as `"pkg/msg/Name"`, `"pkg/Name"` or
`"pkg/action/Fib_SendGoal"` to a message or service class, and memoises the
result. The model covers four parts:

- **Type strings** (`type_strings.dfy`, on top of `py_strings.dfy`). The string
  is split on `/` and empty segments are dropped. `_splittype` takes the
  (package, class) pair. The normalised key is `"pkg/Cls"`. The subname is the
  dot-join of the middle segments, or `"msg"`/`"srv"` when there are none.
- **Hidden action services** (`action_names.dfy`). This covers
  `_get_hidden_action_subname` with its helpers `remove_autogenerated_suffixes`
  and `camel_to_snake_case`. The regular expression is written out as a rule
  for each character, keeping the same look-behind and look-ahead conditions.
- **Loading** (`loader.dfy`). `_load_class` works against a *provider*. A
  provider maps each importable module path `modname.subname` to the classes
  that module defines, each class being an opaque `Handle`.
- **The two-key cache and the front ends** (`loader.dfy`).
  - `_get_class` is given twice. `GetClassStep` is a function on the cache
    contents. `GetClass` is a module-level method that takes a `TypeCache`
    object and updates it, and the function specifies it.
  - `_get_msg_class` and `_get_srv_class` retry once, with `"msg"`/`"srv"`, on
    InvalidModule and InvalidClass only. They appear as `MessageStep`/`ServiceStep`
    and as the methods of `RosLoader`. A `RosLoader` owns the two module-level
    caches, one for messages and one for services.

The exceptions are one datatype, `Errors.LoadError`. Its tags are
InvalidTypeString, InvalidModule, InvalidActionInterface and InvalidClass. Each
keeps the names its constructor receives, but not the `original_exception`
cause. Operations that can raise
return `Errors.Result`.

The main invariant is `Loader.Coherent`. Every cached key is a valid type
string, its normalised key is cached too, and both keys hold the same class.
Every lookup preserves it. Because of it, the different spellings of a type are
all answered from one cache slot once any one of them has loaded. This holds
even when they name different middle segments: after `"pkg/foo/Cls"` loads,
`"pkg/bar/Cls"` gets the same class without an import.

Two behaviours of the code are easy to miss, and the model states both:

- On a hit under the normalised key, `_get_class` returns at once. It does not
  also store the raw key (`ros_loader.py:179-182`). `Loader.NormalizedHit`
  states this.
- For services, the hidden subname is computed before any cache lookup
  (`ros_loader.py:147-157`). A class name that lacks both suffixes therefore
  raises InvalidActionInterface even when its type string is already cached.
  `Loader.ServiceRefusesBeforeCache` states this.

## Model

| member | source | states |
|---|---|---|
| PyStrings.SplitOn | rosbridge_library/src/rosbridge_library/internal/ros_loader.py:125 | `str.split(sep)` always yields at least one piece; JoinSplitOn and SplitOnFirstPiece together fix every piece, for any non-empty separator including the two-character "._" |
| PyStrings.Join | rosbridge_library/src/rosbridge_library/internal/ros_loader.py:127 | `sep.join(pieces)` starts with the first piece |
| PyStrings.EndsWith | rosbridge_library/src/rosbridge_library/internal/ros_loader.py:261 | `s.endswith(suffix)` holds exactly when `s` is some text followed by `suffix` |
| PyStrings.SplitOnFirstPiece | rosbridge_library/src/rosbridge_library/internal/ros_loader.py:253 | the split cuts at the leftmost occurrence: the first piece is a prefix in which no occurrence of the separator starts, it is the whole string when there is no other piece, and otherwise the separator follows it and the other pieces are the split of the rest |
| PyStrings.FirstPieceStep | rosbridge_library/src/rosbridge_library/internal/ros_loader.py:253 | a character that starts no occurrence of the separator joins the first piece, keeping the split leftmost |
| PyStrings.OccursInPrefix | rosbridge_library/src/rosbridge_library/internal/ros_loader.py:253 | an occurrence of the separator inside a prefix is an occurrence in the whole string |
| PyStrings.OccursAtTail | rosbridge_library/src/rosbridge_library/internal/ros_loader.py:253 | occurrences past the first character are occurrences in the tail, one index earlier |
| PyStrings.SplitOnPiecesAvoidSep | rosbridge_library/src/rosbridge_library/internal/ros_loader.py:253 | no piece of `s.split(sep)` contains `sep`, for every non-empty separator |
| PyStrings.NonEmpty | rosbridge_library/src/rosbridge_library/internal/ros_loader.py:125 | the filter `[x for x in xs if x]` keeps only non-empty strings taken from the input and never lengthens it |
| PyStrings.JoinSplitOn | rosbridge_library/src/rosbridge_library/internal/ros_loader.py:125 | joining the pieces of `s.split(sep)` with `sep` gives back `s` |
| PyStrings.SplitOnJoin | rosbridge_library/src/rosbridge_library/internal/ros_loader.py:127 | splitting a join on a one-character separator gives the pieces back when none contains the separator |
| PyStrings.SplitOnAppend | rosbridge_library/src/rosbridge_library/internal/ros_loader.py:125 | the split of `a + c + b` on `c` is the split of `a` followed by the split of `b` |
| PyStrings.SplitOnAbsent | rosbridge_library/src/rosbridge_library/internal/ros_loader.py:125 | a string without the separator character splits into itself alone |
| PyStrings.SplitOnPiecesAvoid | rosbridge_library/src/rosbridge_library/internal/ros_loader.py:125 | no piece of a split on a character contains that character |
| PyStrings.NonEmptyAppend | rosbridge_library/src/rosbridge_library/internal/ros_loader.py:125 | the empty-string filter distributes over concatenation |
| PyStrings.NonEmptyKeeps | rosbridge_library/src/rosbridge_library/internal/ros_loader.py:125 | the filter leaves a list of non-empty strings unchanged |
| TypeStrings.Segments | rosbridge_library/src/rosbridge_library/internal/ros_loader.py:221 | every part of a type string is non-empty and free of slashes |
| TypeStrings.SplitType | rosbridge_library/src/rosbridge_library/internal/ros_loader.py:215-229 | `_splittype` succeeds exactly for 2 parts, 3 parts, or 4 parts whose second is "action"; it returns (first part, last part) and otherwise raises InvalidTypeString with the type string |
| TypeStrings.InferredSubname | rosbridge_library/src/rosbridge_library/internal/ros_loader.py:126-129 | with at most two parts the subname is the default ("msg" or "srv") |
| TypeStrings.NormalizedKey | rosbridge_library/src/rosbridge_library/internal/ros_loader.py:177 | the normalised key is the package, a "/", then the class |
| TypeStrings.InferredSubnameMiddle | rosbridge_library/src/rosbridge_library/internal/ros_loader.py:127 | with more than two parts the subname, split on ".", gives back exactly the middle parts (when they hold no dot) |
| TypeStrings.InferredSubnameThree | rosbridge_library/src/rosbridge_library/internal/ros_loader.py:126-127 | with three parts the subname is the middle part |
| TypeStrings.SegmentsAppend | rosbridge_library/src/rosbridge_library/internal/ros_loader.py:221 | the parts of `a + "/" + b` are the parts of `a` followed by those of `b` |
| TypeStrings.SegmentsEmpty | rosbridge_library/src/rosbridge_library/internal/ros_loader.py:221 | the empty type string has no parts |
| TypeStrings.LeadingSlashDiscarded | rosbridge_library/src/rosbridge_library/internal/ros_loader.py:216-221 | a leading slash does not change the parts |
| TypeStrings.TrailingSlashDiscarded | rosbridge_library/src/rosbridge_library/internal/ros_loader.py:216-221 | a trailing slash does not change the parts |
| TypeStrings.DoubleSlashDiscarded | rosbridge_library/src/rosbridge_library/internal/ros_loader.py:216-221 | a doubled slash gives the same parts as a single one |
| TypeStrings.DoubleSlashSpelling | rosbridge_library/src/rosbridge_library/internal/ros_loader.py:221 | `a + "/" + ("/" + b)` is the spelling `a + "//" + b` |
| TypeStrings.SlashSpellingsAgree | rosbridge_library/src/rosbridge_library/internal/ros_loader.py:221-225 | "pkg//Cls", "/pkg/Cls/" and "pkg/Cls" have the same parts [pkg, Cls] and split to the same pair |
| TypeStrings.SegmentOfSegment | rosbridge_library/src/rosbridge_library/internal/ros_loader.py:221 | a single segment parses as itself |
| TypeStrings.SegmentsJoin | rosbridge_library/src/rosbridge_library/internal/ros_loader.py:221 | joining segments with "/" and parsing gives the segments back |
| TypeStrings.NormalizedKeyStable | rosbridge_library/src/rosbridge_library/internal/ros_loader.py:176-177 | the normalised key "pkg/Cls" of a valid type string has the two parts [pkg, Cls] and splits to the same pair |
| ActionNames.ToLower | rosbridge_library/src/rosbridge_library/internal/ros_loader.py:266 | `lower()` on one character leaves no upper-case ASCII letter |
| ActionNames.LowerAll | rosbridge_library/src/rosbridge_library/internal/ros_loader.py:266 | `lower()` keeps the length and lower-cases each character in place |
| ActionNames.BreaksBefore | rosbridge_library/src/rosbridge_library/internal/ros_loader.py:266 | the pattern only matches an upper-case letter that is not the first character |
| ActionNames.Piece | rosbridge_library/src/rosbridge_library/internal/ros_loader.py:266 | each character becomes its lower-case form, preceded by "_" exactly where the pattern matches |
| ActionNames.SnakeFrom | rosbridge_library/src/rosbridge_library/internal/ros_loader.py:266 | the conversion from a position on gives one or two output characters per input character |
| ActionNames.SnakeFromHasNoUpper | rosbridge_library/src/rosbridge_library/internal/ros_loader.py:266 | the conversion from any position on produces no upper-case letter |
| ActionNames.CamelToSnake | rosbridge_library/src/rosbridge_library/internal/ros_loader.py:265-266 | `camel_to_snake_case` output contains no upper-case ASCII letter and is between one and two times as long as the input |
| ActionNames.SnakeFromLowerUnchanged | rosbridge_library/src/rosbridge_library/internal/ros_loader.py:266 | with no upper-case letter from a position on, the conversion copies the rest of the string |
| ActionNames.CamelToSnakeLowerUnchanged | rosbridge_library/src/rosbridge_library/internal/ros_loader.py:265-266 | a name without upper-case letters is returned unchanged |
| ActionNames.CamelToSnakeIdempotent | rosbridge_library/src/rosbridge_library/internal/ros_loader.py:265-266 | converting twice is converting once |
| ActionNames.SnakeFromOnlyLowers | rosbridge_library/src/rosbridge_library/internal/ros_loader.py:266 | apart from inserted underscores, the conversion from a position on only lower-cases |
| ActionNames.CamelToSnakeOnlyLowers | rosbridge_library/src/rosbridge_library/internal/ros_loader.py:265-266 | for a name without underscores, deleting the underscores of the output gives the lower-cased name |
| ActionNames.DropUnderscoresAppend | rosbridge_library/src/rosbridge_library/internal/ros_loader.py:266 | deleting underscores distributes over concatenation |
| ActionNames.SnakeFromKeepsOthers | rosbridge_library/src/rosbridge_library/internal/ros_loader.py:266 | any output character other than `_` or a lower-case letter occurs in the input from that position on |
| ActionNames.CamelToSnakeKeepsOthers | rosbridge_library/src/rosbridge_library/internal/ros_loader.py:265-266 | any output character other than `_` or a lower-case letter occurs in the input |
| ActionNames.PieceLocal | rosbridge_library/src/rosbridge_library/internal/ros_loader.py:266 | what a character becomes depends only on it and on the neighbours the look-behind and look-ahead inspect |
| ActionNames.SnakeFromAgree | rosbridge_library/src/rosbridge_library/internal/ros_loader.py:266 | past the first character, the conversion depends only on the text from the preceding character on |
| ActionNames.SnakeFromShift | rosbridge_library/src/rosbridge_library/internal/ros_loader.py:266 | past its first character, the conversion of a suffix looks only at that suffix |
| ActionNames.SnakeFromPrefix | rosbridge_library/src/rosbridge_library/internal/ros_loader.py:266 | a prefix that does not end in an upper-case letter is converted as if on its own |
| ActionNames.CamelToSnakeWords | rosbridge_library/src/rosbridge_library/internal/ros_loader.py:266 | a word ending in a lower-case letter or digit and a following word are converted separately and joined by "_" exactly when the second starts upper-case |
| ActionNames.CamelToSnakeCapitalised | rosbridge_library/src/rosbridge_library/internal/ros_loader.py:266 | a capitalised word is lower-cased at its first letter and otherwise kept |
| ActionNames.CapitalisedWordLowered | rosbridge_library/src/rosbridge_library/internal/ros_loader.py:266 | a word made of one upper-case letter and then lower-case letters is simply lower-cased |
| ActionNames.CamelToSnakeOfWords | rosbridge_library/src/rosbridge_library/internal/ros_loader.py:265-266 | three such words become their lower-cased forms joined by "_" |
| ActionNames.CamelToSnakeExample | rosbridge_library/src/rosbridge_library/internal/ros_loader.py:265-266 | "NavigateToPose" becomes "navigate_to_pose" |
| ActionNames.DropSuffix | rosbridge_library/src/rosbridge_library/internal/ros_loader.py:262 | `classname[0:-len(s)]` after `endswith(s)` cuts the suffix off, and gives "" for an empty suffix as Python does |
| ActionNames.StripFirstSuffix | rosbridge_library/src/rosbridge_library/internal/ros_loader.py:259-263 | the loop succeeds iff some suffix ends the name; it then removes the first such suffix in list order, and otherwise raises InvalidActionInterface with the class name |
| ActionNames.RemoveAutogeneratedSuffixes | rosbridge_library/src/rosbridge_library/internal/ros_loader.py:258-263 | "_SendGoal" is removed if present; otherwise "_GetResult"; a name with neither raises InvalidActionInterface |
| ActionNames.NotEndsWith | rosbridge_library/src/rosbridge_library/internal/ros_loader.py:261 | a name whose last character differs from the suffix's does not end with it |
| ActionNames.RemoveSuffixesRoundTrip | rosbridge_library/src/rosbridge_library/internal/ros_loader.py:258-263 | removing the suffixes undoes appending "_SendGoal" or "_GetResult" |
| ActionNames.HiddenActionSubname | rosbridge_library/src/rosbridge_library/internal/ros_loader.py:249-270 | a subname that splits into two on "._" is returned unchanged; otherwise the result is subname + "._" + the snake-case name with the suffix removed (SendGoal first), or InvalidActionInterface |
| ActionNames.SplitOnMarkerAppend | rosbridge_library/src/rosbridge_library/internal/ros_loader.py:253 | the "._" marker appended to text without one is found right after that text |
| ActionNames.SplitOnMarkerNoDot | rosbridge_library/src/rosbridge_library/internal/ros_loader.py:253 | a string without a dot splits into itself alone on "._" |
| ActionNames.HiddenActionSubnameIdempotent | rosbridge_library/src/rosbridge_library/internal/ros_loader.py:253-270 | a subname without a hidden marker gains exactly one, and rewriting the result again leaves it unchanged |
| ActionNames.HiddenActionSubnameOfAction | rosbridge_library/src/rosbridge_library/internal/ros_loader.py:258-270 | the goal and result services of an action map to the same hidden submodule subname + "._" + snake(action) |
| ActionNames.HiddenActionSubnameExample | rosbridge_library/src/rosbridge_library/internal/ros_loader.py:265-270 | NavigateToPose_SendGoal under "action" goes to "action._navigate_to_pose" |
| ActionNames.HiddenActionSubnameRefusesFeedback | rosbridge_library/src/rosbridge_library/internal/ros_loader.py:260-263 | a class name with neither suffix (a feedback message) raises InvalidActionInterface |
| Loader.ModulePath | rosbridge_library/src/rosbridge_library/internal/ros_loader.py:205 | the module path is the package, a ".", then the subname |
| Loader.LoadClass | rosbridge_library/src/rosbridge_library/internal/ros_loader.py:194-212 | the load succeeds iff the module path is importable and defines the class, returning that class; a missing module raises InvalidModule and a missing class InvalidClass |
| Loader.GetClassStep | rosbridge_library/src/rosbridge_library/internal/ros_loader.py:162-191 | the cache only grows, a raised error leaves it unchanged, and no keys are added except the raw and the normalised key |
| Loader.MessageSubname | rosbridge_library/src/rosbridge_library/internal/ros_loader.py:125-129 | "msg" for at most two parts, otherwise the middle parts joined by "." |
| Loader.ServiceSubname | rosbridge_library/src/rosbridge_library/internal/ros_loader.py:147-156 | "srv" for at most two parts, the middle parts otherwise, and the hidden-action rewrite exactly when the second part is "action" |
| Loader.Retryable | rosbridge_library/src/rosbridge_library/internal/ros_loader.py:132 | only InvalidModule and InvalidClass are caught: InvalidTypeString and InvalidActionInterface are never retried |
| Loader.MessageStep | rosbridge_library/src/rosbridge_library/internal/ros_loader.py:114-133 | the cache only grows, errors leave it unchanged, and InvalidTypeString is raised exactly when the raw key is not cached and the string does not parse |
| Loader.ServiceStep | rosbridge_library/src/rosbridge_library/internal/ros_loader.py:136-159 | as for messages; in addition, a failing hidden-action rewrite is raised at once with the cache unchanged |
| Loader.NormalizedOf | rosbridge_library/src/rosbridge_library/internal/ros_loader.py:176-177 | a normalised key exists exactly when the type string parses |
| Loader.RawHit | rosbridge_library/src/rosbridge_library/internal/ros_loader.py:170-173 | a raw hit returns the cached class with the cache unchanged, for every subname and provider |
| Loader.NormalizedHit | rosbridge_library/src/rosbridge_library/internal/ros_loader.py:179-182 | a normalised hit returns its class, leaves the cache exactly as it was, and does not add the raw key |
| Loader.LoadStoresBothKeys | rosbridge_library/src/rosbridge_library/internal/ros_loader.py:184-191 | after a successful load, the cache is the old one with the raw and the normalised key bound to the loaded class |
| Loader.SecondCallHits | rosbridge_library/src/rosbridge_library/internal/ros_loader.py:170-191 | after a success, asking again returns the same class with the same cache, whatever the subname and provider |
| Loader.StoreKeepsCoherence | rosbridge_library/src/rosbridge_library/internal/ros_loader.py:187-189 | storing a fresh key together with its fresh self-normalising key keeps every key's normalised key cached, with the same class |
| Loader.StoreCoherent | rosbridge_library/src/rosbridge_library/internal/ros_loader.py:187-189 | the two stores of a load keep the cache coherent |
| Loader.GetClassStepCoherent | rosbridge_library/src/rosbridge_library/internal/ros_loader.py:170-191 | every lookup keeps the cache coherent |
| Loader.MessageStepCoherent | rosbridge_library/src/rosbridge_library/internal/ros_loader.py:120-133 | message lookup, with its retry, keeps the message cache coherent |
| Loader.ServiceStepCoherent | rosbridge_library/src/rosbridge_library/internal/ros_loader.py:142-159 | service lookup, with its retry, keeps the service cache coherent |
| Loader.CoherentAt | rosbridge_library/src/rosbridge_library/internal/ros_loader.py:176-181 | in a coherent cache, a cached key parses and its normalised key holds the same class |
| Loader.SuccessCachesNormalized | rosbridge_library/src/rosbridge_library/internal/ros_loader.py:176-191 | in a coherent cache, every successful lookup leaves its class under the normalised key |
| Loader.SpellingsShareClass | rosbridge_library/src/rosbridge_library/internal/ros_loader.py:175-182 | after one spelling loads, any type string with the same package and class gets the same class with no load and no cache change, whatever its subname and provider |
| Loader.MessageSpellingsAgree | rosbridge_library/src/rosbridge_library/internal/ros_loader.py:114-133 | after a message loads, every spelling with the same package and class gives the same result and cache |
| Loader.MessageRetry | rosbridge_library/src/rosbridge_library/internal/ros_loader.py:131-133 | only InvalidModule or InvalidClass trigger the retry, which runs once with "msg" on the unchanged cache; any other outcome is returned as it is |
| Loader.MessageSecondCallHits | rosbridge_library/src/rosbridge_library/internal/ros_loader.py:114-133 | after a message lookup succeeds, asking again returns the same class with the same cache, whatever the provider |
| Loader.ServiceRetry | rosbridge_library/src/rosbridge_library/internal/ros_loader.py:157-159 | once the subname is known, only InvalidModule or InvalidClass trigger the retry, which runs once with "srv" on the unchanged cache; the caller sees its class or its error, and any other outcome as it is |
| Loader.ServiceSecondCallHits | rosbridge_library/src/rosbridge_library/internal/ros_loader.py:136-159 | after a service lookup succeeds, asking again returns the same class with the same cache, whatever the provider |
| Loader.ServiceFallsBackToSrv | rosbridge_library/src/rosbridge_library/internal/ros_loader.py:147-159 | when "pkg/Sub/Cls" finds no module pkg.Sub, the class is loaded from pkg.srv and cached under both keys |
| Loader.ServiceSubnameOfAction | rosbridge_library/src/rosbridge_library/internal/ros_loader.py:150-154 | "pkg/action/Act_SendGoal" and "pkg/action/Act_GetResult" are looked up in the hidden submodule "action._" + snake(Act) |
| Loader.ServiceRefusesBeforeCache | rosbridge_library/src/rosbridge_library/internal/ros_loader.py:147-157 | an action service type with neither suffix raises InvalidActionInterface with the cache unchanged, even when the type string is cached |
| Loader.TypeCache.constructor | rosbridge_library/src/rosbridge_library/internal/ros_loader.py:46-47 | a new cache is empty |
| Loader.TypeCache.Get | rosbridge_library/src/rosbridge_library/internal/ros_loader.py:238-246 | `_get_from_cache` returns the cached class iff the key is cached, and None otherwise |
| Loader.TypeCache.Add | rosbridge_library/src/rosbridge_library/internal/ros_loader.py:232-235 | `_add_to_cache` binds the key to the class and changes nothing else |
| Loader.GetClass | rosbridge_library/src/rosbridge_library/internal/ros_loader.py:162-191 | the imperative `_get_class` returns the result of GetClassStep and leaves its cache in the state GetClassStep gives |
| Loader.RosLoader.constructor | rosbridge_library/src/rosbridge_library/internal/ros_loader.py:46-47 | the two caches start empty, separate and coherent |
| Loader.RosLoader.GetMessageClass | rosbridge_library/src/rosbridge_library/internal/ros_loader.py:114-133 | behaves as MessageStep on the message cache, keeps both caches coherent, and leaves the service cache unchanged |
| Loader.RosLoader.GetServiceClass | rosbridge_library/src/rosbridge_library/internal/ros_loader.py:136-159 | behaves as ServiceStep on the service cache, keeps both caches coherent, and leaves the message cache unchanged |

## Left out

- Locks (`_msgs_lock`, `_srvs_lock`): they only give mutual exclusion between threads. Each cache is a plain map owned by an object, and concurrency is not modelled.
- The real `importlib.import_module` and `getattr` are a foreign runtime. They are replaced by the provider map, so import side effects are not modelled, and neither are exceptions other than a missing module or a missing attribute.
- Exception messages and their `original_exception` cause are diagnostic text. Only the tag and the constructor arguments are kept.
- `get_message_instance`, `get_service_request_instance` and `get_service_response_instance` are not modelled. They only call constructors of opaque classes.
- `get_message_class` and `get_service_class` only delegate. They are modelled together with `_get_msg_class` and `_get_srv_class` as `RosLoader.GetMessageClass` and `RosLoader.GetServiceClass`.
- The regular expression engine is not modelled. The substitution of `camel_to_snake_case` is stated directly as a rule for each character (`ActionNames.BreaksBefore`, `ActionNames.SnakeFrom`).
- ActionNames.ToLower: `str.lower()` and the regular expression's `[A-Z]`/`[a-z]` are modelled for ASCII letters only. Lowercasing of non-ASCII characters is left out.
- A cached class that is `None` is not modelled. A `Handle` is always a class, so `cls is not None` becomes membership in the cache.
