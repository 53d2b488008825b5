# XChat Ruby plugins: chat indexer store and automatic greetings

This project models two XChat plugins written in Ruby.

**The chat indexer.** `XChatIndexer::GrnDatabase` is the indexer's data access object.
- It holds a handle (`@database`) that is either nil or attached to a Groonga database file named `xchat_index.db` under a base directory.
- `open` attaches to an existing database or creates a new one with the schema from `define_schema`. `close` detaches the handle.
- `add_message` appends a record to the `Messages` table.
- `find_message` is a conjunctive search inside one server and channel. It returns the `n` newest matches, oldest first.
- `show_n_messages` returns up to `n/2` messages either side of one message, from the same server and channel.

**The automatic greeting plugin.** `AutoGreets` keeps:
- the settings the configuration file assigns;
- the known nicks read from the `known_nicks` file;
- a status table per nick.

When someone joins a greet channel, or comes back from an away nick, the plugin picks one of three actions from the time since it last greeted them: say nothing, say "welcome back", or say the full greeting. When a channel message mentions the user's own nick, the plugin records the time and the text under the sender's nick.

The modules:

| module | file | what it holds |
|---|---|---|
| `Wrappers` | `wrappers.dfy` | `Option`, `Result`, `Outcome` |
| `RubyText` | `ruby_text.dfy` | the Ruby string and array operations the plugins use: ASCII `downcase`, `gsub(/c.*$/, '')` per line, `split("\n")`, `strip`, `sort`, `uniq` |
| `Messages` | `messages.dfy` | the `Messages` and `Topics` tables, `add_message`, `get_message_as_hash`, and selecting, sorting by `_id` and limiting |
| `Queries` | `queries.dfy` | `find_message` and `show_n_messages` as functions of the store, with their properties |
| `XChatIndexer` | `chat_indexer.dfy` | the `GrnDatabase` class over a `Disk` map from path to database |
| `GreetingRules` | `greeting_rules.dfy` | `normalize_nick`, known-nick file cleaning, the greeting decision, mention tracking, `away?` and the hook gates, as pure functions |
| `AutoGreetsPlugin` | `auto_greets.dfy` | `init_status` as a loop, and the `AutoGreets` class whose hooks update the status table in place |

Modelling choices:
- Record ids of the `:array` table `Messages` are the 1-based insertion positions. The subtype `Archive` keeps this as an invariant, along with "every topic a message uses is a key of `Topics`".
- A Groonga selection keeps table order. So sorting a selection by `_id` is either the identity (ascending) or a reversal (descending).
- Full-text matching by the TokenMecab tokenizer is the parameter `matches(text, word)`. Any predicate can be supplied.
- Wall-clock time (`Time.new`) is an integer number of seconds, passed in by the caller.
- The host's answers are parameters:
  - `get_info('away')` is `awayMessage: Option<string>`;
  - `get_info('nick')` is `ownNick`;
  - the existence and contents of `greet.conf` and `known_nicks` are constructor arguments.
- A call that Ruby makes on `nil` raises `NoMethodError`. It is modelled as a `Failure` or `Fail` value, and the state is unchanged.
- The configuration file is Ruby code that `initialize` evaluates inside the plugin object. Its effect is modelled as a series of `Configure` calls made after construction. Each call is one of the generated setters (auto_greets.rb:101-106) or `add_greet_channel_list` (auto_greets.rb:108-110). The setters touch only the settings, which nothing else in `initialize` reads, so running them after the known-nick file is read gives the same state.
- `nick_change_hook` checks `words[1]` against `@greet_channel_list`. `words[1]` is the new nick, not a channel, so a nick change greets only when the new nick itself is listed as a greet channel. `NickChangeGate` and `AutoGreets.NickChangeHook` model this as written.

## Model

| member | source | states |
|---|---|---|
| `Messages.RecordById` | chat_indexer.rb:132-133 | in an `:array` table the record with id `k` sits at position `k` and nowhere else |
| `Messages.Append` | chat_indexer.rb:73-75 | `add_message` adds exactly one record after all others; earlier records are unchanged; the new id is above every earlier id; every column equals the attribute; its topic is a key of `Topics` afterwards; `Topics` gains that topic and no other key, and none for a nil topic |
| `Messages.AppendIdFollowsHighest` | chat_indexer.rb:73-75 | the new id is one more than the previous highest id (1 in an empty table) |
| `Messages.AppendKnownTopic` | chat_indexer.rb:127-137 | adding a message whose topic is already a key leaves `Topics` unchanged |
| `Messages.Select` | chat_indexer.rb:93-95 | `select` keeps exactly the records satisfying the condition, in table (id) order |
| `Messages.SelectAppend` | chat_indexer.rb:73-75 | selecting after an append equals the earlier selection, plus the new record if it qualifies |
| `Messages.SortById` | chat_indexer.rb:95 | sorting a selection by `_id` is a permutation whose ids are strictly ascending or strictly descending, as asked |
| `Messages.Limit` | chat_indexer.rb:95 | `:limit => n` keeps the first `min(n, size)` records |
| `Messages.Project` | chat_indexer.rb:78-87 | `get_message_as_hash` copies id, server, channel, nick, message and timestamp, and drops the topic |
| `Messages.ProjectAll` | chat_indexer.rb:95-97 | `collect` projects every record, position by position |
| `Messages.DescendingLimitReversed` | chat_indexer.rb:95-97 | sorting descending, limiting to `m`, projecting and reversing gives the projections of the `m` highest-id records, ascending |
| `Messages.NewestAreHighest` | chat_indexer.rb:95 | every record left out by the descending limit has a lower id than every record kept |
| `Queries.Matching` | chat_indexer.rb:91-94 | the query keeps exactly the records in the given server and channel whose message matches every word, in ascending id order |
| `Queries.FindMessage` | chat_indexer.rb:90-98 | `find_message` returns no more than `n` messages and no more than there are matching records |
| `Queries.FindMessageIsNewestMatches` | chat_indexer.rb:90-98 | `find_message` returns the projections of the `min(n, k)` newest of the `k` matching records, oldest first |
| `Queries.FindMessageBounds` | chat_indexer.rb:95-97 | `find_message` returns `min(n, k)` messages, so at most `n`, with strictly ascending ids |
| `Queries.FindMessageMatches` | chat_indexer.rb:91-97 | every message returned is in the requested server and channel, matches every word, and is the projection of the stored record with its id |
| `Queries.FindMessageNewest` | chat_indexer.rb:93-97 | a matching record that is not returned is older than every record returned |
| `Queries.FindMessageNoWords` | chat_indexer.rb:91-92 | with no words the search is a plain server-and-channel filter |
| `Queries.MatchingWidens` | chat_indexer.rb:91-92 | dropping words from the query never loses a match |
| `Queries.FindAfterAppend` | chat_indexer.rb:73-75 | for n ≥ 1: after `add_message`, a search in that message's server and channel for words it matches returns it as the newest result |
| `Queries.ShowNMessages` | chat_indexer.rb:101-122 | `show_n_messages` returns nil exactly when no stored record has the id; otherwise at most `2*(n/2)+1` messages |
| `Queries.ShowNMessagesNotFound` | chat_indexer.rb:102-107 | `show_n_messages` returns nil exactly when no record has the id, that is when the id is outside `1..size` |
| `Queries.ShowNMessagesIsWindow` | chat_indexer.rb:110-121 | the result is the projection of: the `n/2` newest older same-scope records, then the anchor, then the `n/2` oldest newer same-scope records |
| `Queries.WindowIncreasing` | chat_indexer.rb:111-121 | the window's ids are strictly ascending |
| `Queries.WindowInScope` | chat_indexer.rb:110 | every record in the window has the anchor's server and channel |
| `Queries.WindowContiguous` | chat_indexer.rb:111-121 | every same-scope record between the window's first and last record is in the window |
| `Queries.ShowNMessagesWindow` | chat_indexer.rb:101-122 | for an existing anchor: the anchor appears exactly once, right after the older part; at most `n/2` messages before and `n/2` after it, so the length is at most `2*(n/2)+1`; ids strictly ascending; all in the anchor's server and channel |
| `Queries.ShowNMessagesNearest` | chat_indexer.rb:111-121 | each side holds the nearest same-scope messages: none between the first and the last shown is missing |
| `XChatIndexer.DatabasePath` | chat_indexer.rb:53 | the database file is `xchat_index.db` inside the base directory, joined with exactly one separator |
| `XChatIndexer.DatabasePathTrailingSlash` | chat_indexer.rb:53 | a base path with a trailing `/` names the same database file as without it |
| `XChatIndexer.GrnDatabase.constructor` | chat_indexer.rb:41-43 | a new object has no database attached |
| `XChatIndexer.GrnDatabase.IsClosed` | chat_indexer.rb:68-70 | `closed?` is true exactly when no database is attached; `Open` makes it false and `Close` makes it true |
| `XChatIndexer.GrnDatabase.Open` | chat_indexer.rb:51-61 | afterwards the handle is attached to `DatabasePath(base)` and `closed?` is false; an existing database keeps its data; a missing one is created with empty `Messages` and `Topics` |
| `XChatIndexer.GrnDatabase.Close` | chat_indexer.rb:63-70 | afterwards `@database` is nil and `closed?` is true, and the data stays on disk; closing without a handle fails with `NoMethodError` on `close` |
| `XChatIndexer.GrnDatabase.AddMessage` | chat_indexer.rb:73-75 | with a database attached, appends the record to that database and returns its id, one more than the number of earlier records; no other database changes; with none attached, fails |
| `XChatIndexer.GrnDatabase.FindMessage` | chat_indexer.rb:90-98 | runs `find_message` on the attached database; fails when none is attached |
| `XChatIndexer.GrnDatabase.ShowNMessages` | chat_indexer.rb:101-122 | runs `show_n_messages` on the attached database; fails when none is attached |
| `XChatIndexer.ReopenKeepsMessages` | chat_indexer.rb:51-75 | a message stored, closed and reopened under the same base path is still there, with id 1, and a search finds it |
| `RubyText.Downcase` | auto_greets.rb:136 | `downcase` keeps the length, lowers each ASCII capital, and leaves no upper-case letter |
| `RubyText.CutAtEachLine` | auto_greets.rb:76 | `gsub(/#.*$/, '')` leaves no `#` and only characters of the input |
| `RubyText.SplitLines` | auto_greets.rb:75 | `split("\n")` gives lines without line feeds, and the last one is never empty |
| `RubyText.Strip` | auto_greets.rb:76 | `strip` returns the slice `s[i..j]` where everything before `i` is white space and everything from `j` on is white space or NUL, and the slice has no white space at either end |
| `RubyText.SortStrings` | auto_greets.rb:75 | `sort` returns a permutation of the lines in lexicographic order |
| `RubyText.CutSingleLine` | auto_greets.rb:136 | on one line, `gsub(/c.*$/, '')` keeps exactly what comes before the first `c` |
| `RubyText.SplitLinesLosesOnlyEmptyFields` | auto_greets.rb:75 | `split("\n")` drops only trailing empty fields; joining all fields with line feeds gives the text back |
| `RubyText.UniqOfSorted` | auto_greets.rb:75 | `sort.uniq` yields a strictly ascending list: sorted, and no string is at or below one before it |
| `RubyText.Uniq` | auto_greets.rb:75 | `uniq` keeps every element once and adds nothing |
| `GreetingRules.NormalizeNick` | auto_greets.rb:135-137 | the normalized nick contains no vertical bar, no underscore and no upper-case letter |
| `GreetingRules.NormalizeNickPrefix` | auto_greets.rb:135-137 | for a one-line nick, the normalized nick is the prefix of the downcased nick that ends just before the first vertical bar or underscore, or at the end |
| `GreetingRules.NormalizeNickIdempotent` | auto_greets.rb:135-137 | normalizing twice is the same as normalizing once |
| `GreetingRules.CleanEntry` | auto_greets.rb:76 | a cleaned line has no `#`, no white space at either end, and only characters from the line; on a one-line entry it is the slice `line[i..j]` before the first `#` (position `h`), with only white space before `i` and only white space or NUL between `j` and `h` (`KeptSlice`), so `"alice  # friend"` gives `"alice"` |
| `GreetingRules.DeleteEmpty` | auto_greets.rb:77 | on entries without line feeds (as the cleaned lines of `split("\n")` are), deleting those matching `/^$/` keeps exactly the non-empty entries; on an entry with a line feed `/^$/` can also match (`"a\n"`), which the model does not cover |
| `GreetingRules.DistinctLines` | auto_greets.rb:75 | the sorted, de-duplicated lines are exactly the file's lines |
| `GreetingRules.KnownNicks` | auto_greets.rb:75-77 | no known nick is empty |
| `GreetingRules.DistinctLinesSortedUnique` | auto_greets.rb:75 | the raw lines are de-duplicated before cleaning: the list that gets cleaned is sorted and has no duplicates |
| `GreetingRules.KnownNicksClean` | auto_greets.rb:75-77 | every known nick is non-empty, has no `#`, no line feed and no white space at either end |
| `GreetingRules.KnownNickHasLine` | auto_greets.rb:75-77 | every known nick is the cleaned form of a line of the file |
| `GreetingRules.LineGivesKnownNick` | auto_greets.rb:75-77 | every line whose cleaned form is non-empty yields a known nick |
| `GreetingRules.Elapsed` | auto_greets.rb:258 | a nick never greeted counts as more than `cooling_off_period` seconds since its last greeting |
| `GreetingRules.Decide` | auto_greets.rb:256-265 | something is said only to a nick with a status entry; welcome back is possible only when `wb_period` is below `cooling_off_period` |
| `GreetingRules.Greeted` | auto_greets.rb:266 | stamping the greeting keeps the table's keys |
| `GreetingRules.Utterance` | auto_greets.rb:246-264 | a line is said exactly when the decision is not silence; it is `wb_word` for a welcome back and `greet_word` for a full greeting, followed by a space and the nick |
| `GreetingRules.UnknownNickSilent` | auto_greets.rb:256 | a nick with no status entry is never greeted |
| `GreetingRules.FirstMeeting` | auto_greets.rb:258-266 | a nick never greeted counts as `cooling_off_period + 1` seconds since: a full greeting, unless `wb_period` exceeds that |
| `GreetingRules.DecideByElapsed` | auto_greets.rb:258-266 | with elapsed `e`: nothing iff `e < wb_period`; welcome back iff `wb_period <= e < cooling_off_period`; full greeting iff both bounds are reached |
| `GreetingRules.DecideMonotone` | auto_greets.rb:258-266 | waiting longer never gives a lesser action (nothing, then welcome back, then greeting) |
| `GreetingRules.GreetedFrame` | auto_greets.rb:266 | greeting stamps only the greeted nick's `last_greet` with the current time; the keys, the other nicks and the other fields stay |
| `GreetingRules.CoolDown` | auto_greets.rb:258-266 | after something is said to a nick, nothing more is said to it for `wb_period` seconds |
| `GreetingRules.Mentions` | auto_greets.rb:300 | decides whether the message contains the own nick, case-insensitively, anywhere in the text (`/#{me}/i` read as plain text); consequences stated: an empty own nick (a nick that normalizes to nothing) matches every message, and a mention needs a text at least as long as the nick |
| `GreetingRules.RecordMention` | auto_greets.rb:301-303 | the sender gets an entry if it had none; its mention time and text are set; every other entry stays |
| `GreetingRules.AfterMessage` | auto_greets.rb:295-305 | `message_hook` adds at most the sender's normalized nick as a key and changes no other nick's entry |
| `GreetingRules.AfterMessageEffect` | auto_greets.rb:295-305 | a message mentioning the own normalized nick (ignoring case) stamps the sender's mention time and text, creating the entry if needed, and changes nothing else; any other message changes nothing |
| `GreetingRules.OwnNickMentions` | auto_greets.rb:297-300 | a text that contains the own (one-line) nick, in any case, always counts as a mention |
| `GreetingRules.MentionMakesGreetable` | auto_greets.rb:301-303 | a nick not in the table that gains an entry by mentioning the user gets, from the greeting decision (`Decide`) at any later time, the full greeting exactly when `wb_period ≤ cooling_off_period + 1`, and silence otherwise |
| `GreetingRules.AwayNick` | auto_greets.rb:128 | decides whether some line of the own nick ends in `away`, `awy`, `out`, `afk`, `bbs`, `bbl` or `lunch` (the `away?` suffix regex, case-sensitive, `$` at each line end); such a nick has at least three characters |
| `GreetingRules.Away` | auto_greets.rb:126-129 | `away?` holds when an away message is set or the own nick ends a line with an away suffix |
| `GreetingRules.AwayMarked` | auto_greets.rb:284-285 | decides whether the nick has a `|` or `_` followed by `afk`, `away`, `awy`, `zzz`, `bbl`, `brb` or `out` in any case (`away_re`); such a nick contains `|` or `_` and has at least four characters |
| `GreetingRules.NickChangeGate` | auto_greets.rb:280-286 | decides whether a nick change greets: not away, the new nick listed in the greet-channel list, the old nick away-marked and the new one not; passing it implies the nick really changed |
| `GreetingRules.AwaySuffixMarked` | auto_greets.rb:284-285 | a nick ending in a vertical bar followed by `away` carries the away marker |
| `GreetingRules.PlainNickUnmarked` | auto_greets.rb:284-285 | a nick with no vertical bar and no underscore never carries the away marker |
| `GreetingRules.AwayBySuffix` | auto_greets.rb:126-129 | an own nick ending in any of `away`, `awy`, `out`, `afk`, `bbs`, `bbl`, `lunch` makes `away?` true |
| `GreetingRules.ChannelName` | auto_greets.rb:271 | a channel name without `#` is left as it is |
| `GreetingRules.JoinGate` | auto_greets.rb:270-274 | `join_hook` goes on only when not away and the channel name, leading `#` removed, is a greet channel |
| `GreetingRules.ChannelNameSingleLine` | auto_greets.rb:271 | for a one-line channel name, `gsub(/^#/, '')` removes one leading `#` and nothing else |
| `GreetingRules.JoinGateChannel` | auto_greets.rb:270-274 | joining `#name` passes the join gate exactly when not away and `name` is in the greet-channel list |
| `GreetingRules.NickChangeBack` | auto_greets.rb:280-286 | going from `name` plus a vertical bar and `away` back to `name` passes the nick-change gate when not away and `name` is in the greet-channel list |
| `AutoGreetsPlugin.InitStatus` | auto_greets.rb:112-124 | the table's keys are exactly the known nicks, and every entry has all five fields nil |
| `AutoGreetsPlugin.AutoGreets.constructor` | auto_greets.rb:55-82 | default settings (`hi`, `welcome back`, 5, 3600, 28800, no channels); loaded exactly when both files exist; the known nicks are the cleaned file lines; the status table is `init_status` of them |
| `AutoGreetsPlugin.AutoGreets.Configure` | auto_greets.rb:101-110 | each setter assigns its own setting only; `add_greet_channel_list` appends one channel |
| `AutoGreetsPlugin.AutoGreets.SayGreetingsOrWb` | auto_greets.rb:255-267 | the line said and the new table follow the three-way rule on the old table; every known nick keeps its entry |
| `AutoGreetsPlugin.AutoGreets.JoinHook` | auto_greets.rb:269-277 | when the join gate passes, greets the normalized joiner by the rule; otherwise says nothing and changes nothing |
| `AutoGreetsPlugin.AutoGreets.NickChangeHook` | auto_greets.rb:279-289 | when the nick-change gate passes, greets the normalized new nick by the rule; otherwise says nothing and changes nothing |
| `AutoGreetsPlugin.AutoGreets.MessageHook` | auto_greets.rb:295-305 | the new table is the mention-tracking update of the old one |

## Left out

- Groonga itself is not modelled: the storage engine, the context and its encoding (`reset_context`), directory creation (`mkdir_p`), and the `Terms` table with its TokenMecab tokenizer and key normalization. Full-text matching is the parameter `matches`.
- Query strings are built by interpolation without escaping (chat_indexer.rb:91-92, 110-117). The model takes server, channel and words as values, so a server name containing query syntax is not modelled.
- `closed?` is also true when Groonga reports the handle closed while it is not nil. In the model only `close` closes a handle, and `close` also sets it to nil, so only the nil case appears.
- `add_message`, `find_message` and `show_n_messages` go through the default Groonga context (`Groonga['Messages']`), not through `@database`. The model runs them on the database the handle is attached to, and fails when none is attached. Groonga's own behaviour with a closed context is not modelled.
- `XChatIndexer.GrnDatabase.Open` does not model the `Groonga::Database.open` and `create` errors (a corrupt or unreadable file), nor opening a second database without closing the first (the first handle is simply replaced).
- A negative `n` for `find_message` or `show_n_messages` is not modelled: limits are natural numbers.
- A topic given as the empty string is taken as a key like any other.
- Timestamps are integer seconds. Ruby's `Time` has sub-second precision.
- The indexer plugin class `XChatIndexerPlugin` is not part of this model: its XChat commands, `@n_lines` and `@last_result`, and result printing (`print_results`, `print_result_summary`, `pretty_time`) are user interface.
- `find_in_channel` passes a raw string as `find_message`'s `words`. The model takes an explicit sequence of words.
- XChat host plumbing is not modelled: `hook_print`, `hook_command`, `get_info`, `get_users`, `get_channels`, and `command("SAY ...")`. The hooks are registered only when both files exist, which the hook methods require as `loaded`.
- `AutoGreetsPlugin.AutoGreets.SayGreetingsOrWb` returns the line to say instead of scheduling it with `hook_timer` after `@delay` seconds in the current context. The delay is kept as a setting but not modelled as time passing.
- The `/greet` commands (`help`, `all`, `status`, `list`, `config`, `test`) and `part_hook` only print or talk to the host, and are not modelled.
- `GreetingRules.DeleteEmpty`: reads `/^$/` as "the entry is empty", which agrees with Ruby only on entries without line feeds; every entry it is given is a cleaned line of `split("\n")`, so none has one.
- `say_hook` (auto_greets.rb:139-142) is not modelled: it calls `add_message`, which the plugin class does not define, and `initialize` never registers it, so it is dead code.
- `GreetsConfig` (auto_greets.rb:27-43) is never used by the plugin. `eval` of arbitrary configuration code is modelled only through the setter calls it may make.
- `GreetingRules.Mentions` reads the own nick as plain text. In the source it is interpolated into a regular expression, so metacharacters in a nick would change the match.
- `RubyText.Downcase` handles ASCII letters only, like `String#downcase` in the Ruby versions of the time. `strip` is modelled with ASCII white space, plus NUL at the right end.
- `message_hook` reads the current channel and never uses it, so the model does not take a channel.
- Known nicks are de-duplicated before cleaning, as the source does. Two lines that differ only in comments or white space therefore give the same known nick twice. `InitStatus` enters such a nick once.
