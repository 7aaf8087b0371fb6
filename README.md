# discordbot in Dafny

A model of the decision logic of **discordbot**, a Discord bot written in
Python on `discord.py`. The bot is a set of cogs, each a group of commands:

- **Smash** tracks Super Smash Bros. matches between members of a guild.
  A match (`Game`) holds one `Player` per member. A player records the
  fighters picked round by round, the indices of the rounds won, and a deque
  of bans that the match's ban limit bounds. Four modes (Smash, Elimination,
  Smashdown, Smasharound) decide which picks and bans are legal. The cog
  keeps a registry from member to player and runs the commands that start a
  match, record wins, undo, change settings, add players, and vote to end.
  A second, record-based player (`cogs/smash/models/player.py`) keeps
  `Round(fighter, win)` objects instead of win indices.
- **Overwatch** reads free-order arguments (BattleTag, mention, region,
  platform, mode), converts BattleTags to and from their API form, computes
  levels and play times, orders the most played heroes, and settles which
  tag, mode, platform and region a lookup uses.
- **Images** builds xkcd addresses, picks a random comic, prefixes a cat
  category, tallies rating reactions and reads a new rating.
- **Management** collects the messages `purge` deletes, matches self-assigned
  roles, keeps the per-channel `autotts` table, and decides what happens to a
  guild's new-member role when a member's roles change.
- **Misc**, **Meta**, **Owner**, the bot classes (`lagbot.py`,
  `discordbot.py`) and the two `utils` modules supply the full-width text
  map, colour parsing, the coin-flip tally, `charinfo` codes, uptime strings,
  code-fence stripping, the eval reply cap, the exit code, command
  descriptions, column alignment, stream links and the small helpers
  `rzip`, `pluralize`, `commaize`, `clamp`, `between` and `integer`.

There is one Dafny module per source file, plus `Wrappers` (Option and
Result) and `Text` (the string built-ins the bot relies on). Code that
changes state in place is modelled with classes:

- the two smash players, the match, the round and the cog's registry;
- the rating tally;
- the `autotts` table.

Every method on these classes is stated against a function of the values
it changes. The lemmas beside that function prove the properties the
source relies on. The main one is that a player's win indices stay
distinct and keep pointing at the fighter each round was won with, across
`play` (with the correction to negative rounds listed under Findings),
`win` and `undo`.

Discord, the database and HTTP are outside the model. What they would
supply (stored rows, fetched payloads, random draws, the author, the
channel) is passed in as parameters. `game_in_progress`, the guard on
every match command, is the predicate `SmashCog.Smash.InProgress`. The
commands themselves require the state that guard establishes
(`SmashCog.Smash.Seated`).

## Model

| member | source | states |
|---|---|---|
| `Utils.MinLen` | utils.py:12-13 | the minimum of the input lengths: no input is shorter and some input has exactly that length |
| `Utils.Rzip` | utils.py:6-15 | no inputs gives no result (`min` of nothing raises); otherwise min-length many tuples, one entry per input, the i-th taking element `i + len(it) - min_len` |
| `Utils.RzipLast` | utils.py:6-15 | the last tuple consists of the last element of every input |
| `Utils.RzipEqualLengths` | utils.py:6-15 | on inputs of one common length `rzip` is plain `zip` |
| `Utils.RzipExample` | utils.py:10 | `rzip([1,2,3],[4,5]) == ((2,4),(3,5))` |
| `Utils.FormatAppend` | utils.py:21-22 | formatting a concatenated template is the concatenation of the two formatted halves |
| `Utils.DefaultFormat` | utils.py:18 | the default template `'{n} {s}'` renders number, space, word |
| `Utils.Pluralize` | utils.py:18-32 | the singular word is filled in when n == 1, the plural otherwise, with `{n}` the decimal number |
| `Utils.PluralizeDefault` | utils.py:18-32 | with the default template the result is `str(n) + ' ' + word`, singular iff n == 1 |
| `Utils.PluralizeExamples` | utils.py:24-27 | `'1 dog'`, `'3 dogs'`, and `'dogs ... 3'` for the template `'{s} ... {n}'` |
| `Utils.Commaize` | utils.py:40-50 | `''` for no items, the item for one, `'a and b'` for two, `', '`-joined head then `', and '` last for three or more |
| `Utils.CommaizeEnds` | utils.py:40-50 | a non-empty list renders starting with its first item and ending with its last |
| `Utils.CommaizeExamples` | utils.py:47-50 | `'a and b'` and `'a, b, and c'` |
| `Utils.Clamp` | utils.py:53-58 | below `low` gives `low`; otherwise above `high` gives `high`; a value inside both bounds is unchanged; the result lies in [low, high] when low <= high |
| `Utils.ClampOneSided` | utils.py:53-58 | with only `low` it is max(v, low); with only `high` it is min(v, high) |
| `Utils.ClampIdempotent` | utils.py:53-58 | clamping twice equals clamping once when the range is non-empty |
| `UtilsPkg.RzipRightAligned` | utils/utils.py:11-20 | the result has min-length tuples and tuple i takes element i of each input's last min-length elements |
| `UtilsPkg.PluralizeSingularIff` | utils/utils.py:23-37 | the default rendering uses the singular word if and only if n == 1 |
| `UtilsPkg.Between` | utils/utils.py:40-55 | inclusive: above max gives max, below min gives min; exclusive: >= max gives max-1, <= min gives min+1; a value strictly inside is unchanged |
| `UtilsPkg.BetweenInRange` | utils/utils.py:45-49 | inclusive `between` lands in [min, max] when min <= max |
| `UtilsPkg.BetweenIdempotent` | utils/utils.py:45-49 | inclusive `between` applied twice equals once |
| `UtilsPkg.Integer` | utils/utils.py:64-69 | an integer literal (after stripping white space, optional sign, digit groups) yields its value; anything else is handed on to the float branch |
| `UtilsPkg.IntLiteralUnsigned` | utils/utils.py:64-69 | an unsigned stripped literal is accepted iff it is digit groups, with their value |
| `UtilsPkg.IntLiteralNegative` | utils/utils.py:64-69 | a `-`-signed stripped literal is accepted iff its body is digit groups, with the negated value |
| `UtilsPkg.IntegerOfIntToString` | utils/utils.py:64-69 | `integer(str(i)) == i` for every integer i |
| `UtilsPkg.PlainLiteral` | utils/utils.py:64-69 | unsigned digit groups read as their value |
| `UtilsPkg.NegativeLiteral` | utils/utils.py:64-69 | minus sign and digit groups read as the negated value |
| `UtilsPkg.NatToStringGroups` | utils/utils.py:64-69 | `str(n)` is one digit group whose value is n |
| `UtilsPkg.SameStripped` | utils/utils.py:64-69 | two strings with the same stripped text convert alike |
| `UtilsPkg.IntegerPadded` | utils/utils.py:64-69 | surrounding white space does not change the converted value |
| `UtilsPkg.IntegerUnderscore` | utils/utils.py:64-69 | a single underscore between two digits is accepted |
| `UtilsPkg.IntegerRejects` | utils/utils.py:64-78 | a doubled underscore and the empty string are not integer literals |
| `LagBot.Decompose` | lagbot.py:82-84 | days*86400 + hours*3600 + minutes*60 + seconds == total, with 0 <= hours < 24 and 0 <= minutes, seconds < 60 |
| `LagBot.FirstShown` | lagbot.py:95-100 | the first non-zero unit, all before it being zero; seconds when all are zero |
| `LagBot.Parts` | lagbot.py:95-102 | one part per unit from the first shown one through seconds |
| `LagBot.RzipParts` | lagbot.py:102 | `rzip` of units, amounts and a format tuple of length k gives k parts |
| `LagBot.RzipShown` | lagbot.py:95-102 | after the loop has cut the format tuple, `rzip` renders exactly the shown units |
| `LagBot.FirstShownAt` | lagbot.py:95-100 | the loop's stopping index is the first non-zero unit |
| `LagBot.GetUptime` | lagbot.py:79-102 | the result is the shown parts joined by `', '` (long) or `' '` (brief) |
| `LagBot.LeadingZerosDropped` | lagbot.py:95-98 | units before the first non-zero one are dropped, every later unit is shown even when zero |
| `LagBot.PartShape` | lagbot.py:86-93 | a long part is `<n> <word>`, singular only for 1; a brief part is `<n><letter>` |
| `LagBot.ZeroUptime` | lagbot.py:95-102 | zero seconds renders `0 seconds`, or `0s` brief |
| `LagBot.DayAndSeconds` | lagbot.py:95-102 | 86405 seconds shows day, hours, minutes and seconds, keeping the zero units in the middle |
| `Meta.JoinTemplates` | cogs/meta.py:129 | `joiner.join(fmt)` of well-formed templates is a well-formed template |
| `Meta.RenderAppend` | cogs/meta.py:129-133 | formatting a concatenated template is the concatenation of the formatted halves |
| `Meta.RenderJoin` | cogs/meta.py:129-133 | formatting the joined templates equals joining the individually formatted templates |
| `Meta.Templates` | cogs/meta.py:11-13 | four well-formed templates, brief `{d}d {h}h {m}m {s}s` or long `{d} day{dp}` ... |
| `Meta.Parts` | cogs/meta.py:110-127 | one rendered template per unit from the first non-zero one through seconds |
| `Meta.RenderedShown` | cogs/meta.py:122-127 | the templates the loop keeps render to exactly the shown parts |
| `Meta.GetUptime` | cogs/meta.py:108-133 | the result is the shown parts joined by `' '` (brief) or `', '` (long) |
| `Meta.UnitShape` | cogs/meta.py:11-13 | a brief unit reads `<n><letter>`, a long one `<n> <word><plural(n)>` |
| `Meta.ZeroUptime` | cogs/meta.py:122-127 | all zeros leaves only the seconds template: `0s`, or `0 second` + plural(0) |
| `Meta.Poke` | cogs/meta.py:165-172 | invoked as `poke` the reply is "I need an adult!", under the `ping` alias "Pong!" |
| `DiscordBot.FirstSentence` | discordbot.py:43-48 | the docstring up to and including its first `.` (a prefix ending in `.` with no earlier `.`), or all of it when it has none |
| `DiscordBot.FuncDesc` | discordbot.py:30-49 | "No description." without a docstring; otherwise the first sentence with a space put before every newline |
| `DiscordBot.ExpandedEnd` | discordbot.py:43-48 | inserting spaces before newlines keeps the last character, so the description ends in `.` iff the sentence does |
| `DiscordBot.MaxLen` | discordbot.py:61-65 | the longest word length: no word is longer, some word has it, 0 for no words |
| `DiscordBot.ListAlign` | discordbot.py:52-68 | one entry per word, equal to longest minus that word's length, never negative, 0 for some longest word |
| `DiscordBot.StreamNameLink` | discordbot.py:105-114 | a link (http://, https://, twitch.tv, hitbox.tv) is kept and named by its last `/` segment: a slash-free suffix of the link that is the whole link or follows a `/`; a name is kept with link `http://twitch.tv/` + lower(name) |
| `DiscordBot.StreamLinkStable` | discordbot.py:105-114 | feeding a built link back in keeps the link and names it by the lower-cased name |
| `DiscordBot.ComPermCheck` | discordbot.py:71-77 | the test itself: the command runs when it has no server list or lists this server, and has no user list or lists the author (its contract is stated by `ComPermWiden`) |
| `DiscordBot.ComPermWiden` | discordbot.py:71-77 | the permission test (servers None or server listed, users None or author listed) only grows when a list grows or is removed |
| `Owner.CleanupFenced` | cogs/owner.py:23-26 | a block fenced by ``` (with an optional language on the opening line) loses its first and last lines and keeps the lines between exactly |
| `Owner.Cleanup` | cogs/owner.py:23-27 | unfenced code only loses backticks, spaces and newlines at its two ends: the result is a slice, everything cut off is of that set and its ends are not |
| `Owner.Shown` | cogs/owner.py:70-73 | the output line never starts with a newline, ends with the output, marks empty output and a leading newline with `''`, and is the output itself otherwise |
| `Owner.EvalOutput` | cogs/owner.py:68-80 | `None` gives `None`; otherwise a `py` code block of the shown output, never over 2000 chars, replaced by "Output too long." when it would be |
| `Owner.ExitCode` | cogs/owner.py:85-96 | `restart` exits with 2, `kill` with 1, `exit` with the typed code; no code is refused as invalid |
| `Owner.ExitAliasFixed` | cogs/owner.py:91-92 | under an alias the typed code is ignored and the exit always goes ahead |
| `Misc.FwChar` | cogs/misc.py:15-17 | punctuation, digits and letters move up by 65248, space goes to 12288, anything else is unchanged |
| `Misc.Fullwidth` | cogs/misc.py:177 | the translation has the input's length and maps each character through the table |
| `Misc.FullwidthRoundTrip` | cogs/misc.py:15-18 | text without full-width characters is recovered from its translation |
| `Misc.FullwidthImage` | cogs/misc.py:15-18 | a translated character is full-width iff the original was translatable or already full-width |
| `Misc.HexColor` | cogs/misc.py:42-51 | a single argument succeeds exactly when `int(color, 0)` accepts the prepared text (`0x` prefixed to six characters, `#` replaced in seven), with that value; otherwise the hex BadArgument message |
| `Misc.IntBase0` | cogs/misc.py:49 | `int(color, 0)`: stripped, an optional sign, then a `0x`/`0o`/`0b` prefix selecting the base or a decimal literal without leading zeros; None where Python raises ValueError (values stated by `ZeroXValue`, `HexSix` and `HexHash`) |
| `Misc.RgbColor` | cogs/misc.py:52-59 | three parts give a colour below 0x1000000 or one of the two RGB BadArgument messages |
| `Misc.RgbOf` | cogs/misc.py:53-59 | exactly when a part is not an integer the format message; exactly when all are integers and a channel is outside [0,255] the range message; otherwise a colour below 0x1000000 whose high, middle and low bytes are r, g and b |
| `Misc.HexOrRgb` | cogs/misc.py:40-60 | one space-separated part is the hex branch, three the RGB branch, any other count raises "You must pass 1 (hex) or 3 (RGB) arguments." |
| `Misc.ZeroXValue` | cogs/misc.py:49 | `0x` followed by hexadecimal digits reads as the digits' value |
| `Misc.HexSix` | cogs/misc.py:44-45 | six bare hex digits get a `0x` prefix and read in base 16 |
| `Misc.HexHash` | cogs/misc.py:46-47 | `#` and six hex digits read as the same colour |
| `Misc.RgbTextSplit` | cogs/misc.py:41 | three decimal channels separated by spaces split into the three numerals |
| `Misc.RgbTextValues` | cogs/misc.py:53-54 | each decimal numeral converts to its own value |
| `Misc.RgbOfChannels` | cogs/misc.py:57-59 | in-range channels combine into `(r<<16)+(g<<8)+b`, otherwise the range error |
| `Misc.RgbChannels` | cogs/misc.py:52-59 | three in-range decimal channels give the colour `(r<<16)+(g<<8)+b` |
| `Misc.RgbOutOfRange` | cogs/misc.py:57-58 | a channel above 255 raises the range message |
| `Misc.FourFormat` | cogs/misc.py:26-28 | the templates `"{n} {s}, "` and `"{n} {s} ago"` render number, space, word and tail |
| `Misc.FancyTimeShape` | cogs/misc.py:21-33 | years (days // 365) appear only from 365 days on, then days % 365 and "ago", then the timestamp |
| `Misc.FancyTime` | cogs/misc.py:21-33 | the years part, the remaining days with "ago", and the timestamp in parentheses (its shape is stated by `FancyTimeShape`) |
| `Misc.CountWhere` | cogs/misc.py:102-110 | a face count never exceeds the number of draws |
| `Misc.CountsAddUp` | cogs/misc.py:102-110 | Heads, Tails and Edge counts add up to the number of draws |
| `Misc.Flip` | cogs/misc.py:96-120 | fewer than one coin counts as one; each draw adds to exactly one face (odd Heads, even non-zero Tails, zero Edge), the counts sum to the coins, and the message lists the faces that came up |
| `Misc.FlipMessage` | cogs/misc.py:112-119 | the message lines are the faces with a non-zero count as `<face>: <count>`, only the face and nothing more for one coin |
| `Misc.SingleCoin` | cogs/misc.py:113-117 | a single coin reports just the face it showed |
| `Misc.CodeDigits` | cogs/misc.py:160-165 | the code point's hex digits, zero-filled to 4 in the BMP and to 8 beyond, worth the code point |
| `Misc.CodeString` | cogs/misc.py:160-165 | `\u` with 4 digits when the hex has at most 4 digits, `\U` with 8 otherwise, in backticks |
| `Misc.Charinfo` | cogs/misc.py:149-168 | for the NFC-normalised text: empty sends nothing, more than 25 characters is refused, otherwise one code per character |
| `Images.XkcdUrl` | cogs/images.py:42-47 | no number (or 0) gives `http://xkcd.com/info.0.json`, a number n gives `http://xkcd.com/n/info.0.json` |
| `Images.XkcdUrlNumber` | cogs/images.py:42-47 | the number reads back from a numbered address's path |
| `Images.PickComic` | cogs/images.py:89-92 | the pick is the first draw that is not 404, so it lies in [1, latest] and is never 404; no pick only when every draw was 404 |
| `Images.CategoryParam` | cogs/images.py:154-157 | as written: a listed category becomes `&category=<name>`, any other text stays as it was |
| `Images.CategoryParamFixed` | cogs/images.py:154-157 | corrected: a listed category becomes `&category=<name>`, any other adds nothing |
| `Images.CategoryLeaks` | cogs/images.py:22 | as written, an unlisted category is pasted raw right after `&format=xml` in the request address |
| `Images.CategoryFixedShape` | cogs/images.py:154-155 | corrected, the slot is empty or a `&category=` pair naming a listed category |
| `Images.VoteTally.constructor` | cogs/images.py:198-201 | no votes, no faves, no actions, not reported |
| `Images.VoteTally.Check` | cogs/images.py:203-219 | reactions 1-10 record (and replace) that user's score; 11 faves and queues a call; 0 reports, queues a call and stops; collection also stops when actions + votes reach 20 |
| `Images.CardUpdate` | cogs/images.py:207 | a vote adds to the vote count only for a user who had not voted |
| `Images.DigitRun` | cogs/images.py:323 | the length of the leading digit run |
| `Images.ScoreGroup` | cogs/images.py:323 | a match means the input starts with the group text followed by `/10` |
| `Images.IndexIn` | cogs/images.py:321 | `tuple.index`: the first position holding the value |
| `Images.ReadScoreRaises` | cogs/images.py:323-327 | as written, `/10` matches with an empty group and `int('')` raises |
| `Images.ReadScore` | cogs/images.py:316-327 | the reading as written: digits clamped to [1, 10], a digit reaction its index, else the `(-?[0-9]*)/10` group, which raises on an empty group (stated by `ReadScoreRaises` and `ReadScoreAgrees`) |
| `Images.ReadScoreFixed` | cogs/images.py:318-327 | corrected reading: never raises, and every score read is in [1, 10] |
| `Images.ReactionScore` | cogs/images.py:320-321 | a digit reaction's index is its score, in [1, 10] |
| `Images.ReadScoreAgrees` | cogs/images.py:318-327 | the written and corrected readings agree except where the written one raises, where the corrected one reports an invalid format |
| `Images.ReadDigits` | cogs/images.py:318-319 | a digit string reads as its value clamped to [1, 10] |
| `Images.ReadFraction` | cogs/images.py:322-327 | a leading `X/10` reads as X clamped to [1, 10] |
| `Images.RunOf` | cogs/images.py:323 | the digit run of digits followed by a non-digit is exactly those digits |
| `Images.Rerate` | cogs/images.py:305-329 | corrected (see Findings): an unrated image is refused before the score is read; a rated one gets exactly the score `ReadScoreFixed` reads, in [1, 10], and an unreadable one (including `/10`) the invalid-format message |
| `Management.Matches` | cogs/management.py:154-156 | the messages kept from the history never outnumber it |
| `Management.MatchesSound` | cogs/management.py:155-156 | every collected message is from the history and by the member (or anyone when none is given) |
| `Management.MatchesComplete` | cogs/management.py:155-156 | every history message by the member is among the matches |
| `Management.MatchesPrefix` | cogs/management.py:154-156 | the matches of a prefix of the history are a prefix of all the matches, in history order |
| `Management.MatchesCons` | cogs/management.py:154-156 | matches can be taken from the front of the history |
| `Management.ScanAll` | cogs/management.py:157-158 | once more messages are collected than `count`, the loop never stops early and takes every remaining match |
| `Management.ScanUpTo` | cogs/management.py:154-158 | below `count`, the loop collects the first matches up to `count` in all |
| `Management.ScanCases` | cogs/management.py:153-158 | as written: count >= 1 takes the first `count` matches; a negative count takes every match; a zero count takes every match when the newest message matches, else none |
| `Management.Collect` | cogs/management.py:153-158 | the collection loop as written collects exactly what `ScanCases` describes |
| `Management.CollectBounded` | cogs/management.py:153-158 | corrected: the first min(count, matches) matches, never more than `count` and none for a count below one |
| `Management.Purge` | cogs/management.py:132-158 | corrected (see Findings): above 100 is refused; without permission (no member, the author, manage_messages, or the bot targeted by the owner) nothing happens; otherwise the first min(count, matches) matches, none for a count of zero or less |
| `Management.ForbiddenTextDiffers` | cogs/management.py:167-168 | the singular and plural Forbidden replies differ |
| `Management.ForbiddenReply` | cogs/management.py:167-168 | as written, the plural reply is chosen whenever at least one message was collected |
| `Management.ForbiddenSingle` | cogs/management.py:162-168 | as written, one undeletable message is reported as "Some messages"; corrected, in the singular |
| `Management.ForbiddenReplyFixed` | cogs/management.py:167-168 | corrected: plural exactly when several messages were tried |
| `Management.FirstNamed` | cogs/management.py:182-187 | the first role whose lower-cased name matches, no earlier role matching; none when no role matches |
| `Management.FindRole` | cogs/management.py:182-192 | the first match decides: grantable if it has no permissions, unavailable otherwise; missing when no role matches |
| `Management.FirstIs` | cogs/management.py:183-187 | a matching role with no earlier match is the first match |
| `Management.ChooseRole` | cogs/management.py:175-215 | the first role matching the name lower-cased is chosen when it has no permissions and refused as unavailable otherwise; with no match, the command's own message ("That role does not exist." for the guild's roles, "You do not have that role." for the author's) |
| `Management.Cog.constructor` | cogs/management.py:218-226 | the table starts empty |
| `Management.Cog.AutoTts` | cogs/management.py:217-226 | without a toggle the table is unchanged and the status is reported; with one it is recorded for this channel only and every other channel keeps its setting |
| `Management.MemberUpdate` | cogs/management.py:285-312 | corrected decision chain: never crashes; a vanished new role deletes the settings row |
| `Management.MemberUpdateCrashes` | cogs/management.py:299-303 | as written, an active settings row whose role is gone reaches the undefined name `member` |
| `Management.MemberUpdateAsWritten` | cogs/management.py:285-312 | the decision chain as written, reaching the undefined `member` when the new role has vanished (stated by `MemberUpdateCrashes`) |
| `Management.RemoveIff` | cogs/management.py:290-310 | the new role is removed iff every guard passes, autoremove is on, roles grew and the member has it |
| `Management.AddIff` | cogs/management.py:290-312 | the new role is added iff every guard passes, the removal branch is not taken, autoadd is on and only one role remains |
| `Management.DeleteIff` | cogs/management.py:290-304 | the settings row is deleted iff it is active for a change of role count and its role is gone |
| `Overwatch.ModeOf` | cogs/overwatch.py:27-35 | quickplay, unranked, quick and qp name quickplay; competitive, ranked, comp and default name competitive; nothing else names a mode |
| `Overwatch.ModeNameRoundTrip` | cogs/overwatch.py:27-35 | a mode's canonical name looks itself up |
| `Overwatch.OwMode` | cogs/overwatch.py:163-167 | the mode named by the lower-cased argument, or NotFound "`<arg>` is not a valid mode." |
| `Overwatch.OwModeCaseInsensitive` | cogs/overwatch.py:163-167 | an argument and its lower-case form resolve alike |
| `Overwatch.LastInSkip` | cogs/overwatch.py:110-125 | tokens of other kinds leave a field as it was |
| `Overwatch.FixArgOrder` | cogs/overwatch.py:108-126 | each field is the last token classified to it (`#`/`@` tag as typed; else lower-cased region, platform or mode name), `None` and Mode values skipped, other tokens dropped, tag `''` when absent |
| `Overwatch.Classify` | cogs/overwatch.py:110-124 | one argument's field: a `#` or `@` token is the tag as typed; otherwise its lower-case form as a region, a platform or a mode name, in that order; anything else nothing |
| `Overwatch.LastInSnoc` | cogs/overwatch.py:110-125 | one more token changes only the field it is classified to |
| `Overwatch.LastInSwap` | cogs/overwatch.py:108-126 | swapping two neighbouring tokens that are not both of one kind leaves that kind's field unchanged, so with one token per kind order does not matter |
| `Overwatch.FixArgTagAnywhere` | cogs/overwatch.py:114-115 | a single tag token becomes the tag wherever it stands |
| `Overwatch.MentionIdNewline` | cogs/overwatch.py:21 | a final newline does not change what a mention reads as (`$` matches before it) |
| `Overwatch.MentionIdDigits` | cogs/overwatch.py:129-132 | `<@digits>` and `<@!digits>` read as the value of the digits |
| `Overwatch.MentionId` | cogs/overwatch.py:129-132 | the id of `<@digits>` or `<@!digits>`, with one final newline allowed, else None (stated by `MentionIdDigits`, `MentionIdNewline` and `MentionIdRoundTrip`) |
| `Overwatch.MentionIdRoundTrip` | cogs/overwatch.py:129-132 | a mention written from an id reads back that id in every accepted form |
| `Overwatch.BtagToApi` | cogs/overwatch.py:145-156 | a valid BattleTag becomes `name-disc`; anything else raises InvalidBTag |
| `Overwatch.ValidateIffConverts` | cogs/overwatch.py:135-156 | `validate_btag` and `btag_to_api` accept exactly the same strings |
| `Overwatch.ValidateBtag` | cogs/overwatch.py:135-142 | exactly one `#`; a name of 3 to 12 characters without punctuation or spaces and not starting with a digit; a discriminator of digits (stated by `ValidateIffConverts`) |
| `Overwatch.ReverseAround` | cogs/overwatch.py:160 | reversing `a + c + b` gives reversed b, c, reversed a |
| `Overwatch.BtagRoundTrip` | cogs/overwatch.py:145-160 | `api_to_btag(btag_to_api(b)) == b` for every valid BattleTag b |
| `Overwatch.ApiToBtag` | cogs/overwatch.py:159-160 | the last `-` becomes `#` (its inverse property is `BtagRoundTrip`) |
| `Overwatch.OwLevelSplit` | cogs/overwatch.py:170-173 | prestige and a level below 100 read back from `prestige * 100 + level` |
| `Overwatch.OwLevel` | cogs/overwatch.py:170-173 | a hundred levels per prestige (stated by `OwLevelSplit`) |
| `Overwatch.TimeTemplateSplit` | cogs/overwatch.py:177 | `divmod(t, 60)` recovers h hours and m < 60 minutes |
| `Overwatch.TimeTemplate` | cogs/overwatch.py:176-186 | the template for whole minutes: hours and minutes parts, each left out when zero, or `<1 minute` (stated by `TimeTemplateSplit` and `TimeTemplateCases`) |
| `Overwatch.TimeTemplateCases` | cogs/overwatch.py:176-185 | 0 gives `<1 minute`; under an hour only minutes; whole hours only hours; otherwise hours then minutes |
| `Overwatch.Insert` | cogs/overwatch.py:190 | inserting adds the one entry: length and multiset grow by it |
| `Overwatch.SortDesc` | cogs/overwatch.py:190 | the sort is a permutation of the entries |
| `Overwatch.InsertElems` | cogs/overwatch.py:190 | an insertion adds the entry and nothing else |
| `Overwatch.InsertSorted` | cogs/overwatch.py:190 | inserting into a non-increasing list keeps it non-increasing |
| `Overwatch.WithTimeConcat` | cogs/overwatch.py:190 | the entries of one play time in a concatenation are those of each half |
| `Overwatch.InsertWithTime` | cogs/overwatch.py:190 | insertion puts the new entry ahead of the entries of its play time already present |
| `Overwatch.SortDescSpec` | cogs/overwatch.py:190 | the sort is non-increasing in play time and keeps entries of equal play time in input order (stable) |
| `Overwatch.Without` | cogs/overwatch.py:191-192 | the placeholder hero is dropped and only entries of the input remain |
| `Overwatch.MostPlayed` | cogs/overwatch.py:189-193 | the heroes sorted by play time with the placeholder dropped |
| `Overwatch.WithoutSorted` | cogs/overwatch.py:191-192 | dropping the placeholder keeps the order |
| `Overwatch.MostPlayedOrdered` | cogs/overwatch.py:189-193 | the most-played list is non-increasing in play time and contains every hero but the placeholder |
| `Overwatch.WithoutKeeps` | cogs/overwatch.py:191-192 | every hero other than the placeholder survives the filter |
| `Overwatch.GetPlatform` | cogs/overwatch.py:215-224 | the given platform, else the stored one, else `pc` |
| `Overwatch.FirstAvailable` | cogs/overwatch.py:232-238 | the first of us, eu, kr with data, no earlier one having data; none when no region has data |
| `Overwatch.GetRegion` | cogs/overwatch.py:226-240 | a given region is returned lower-cased iff it has data, else NotFound; with none given a stored region is returned unchecked, else the first available, else NotPlayed |
| `Overwatch.GetTag` | cogs/overwatch.py:242-252 | a valid BattleTag in API form; otherwise the stored tag of the mentioned member (or of the author when there is no non-zero mention), else NotInDB |
| `Overwatch.GetTagMode` | cogs/overwatch.py:254-275 | a tag error is passed on; otherwise the resolved tag with a given mode through `ow_mode`, whose NotFound text is passed on; else the mode stored for the tag when there is one, then the one stored for the author, a stored name that is not a mode raising KeyError; with neither, competitive |
| `Overwatch.DefaultModeCompetitive` | cogs/overwatch.py:272-274 | with no mode given and none stored the mode is competitive |
| `Overwatch.FallbackMode` | cogs/overwatch.py:286-289 | quickplay is never changed; competitive becomes quickplay iff both the competitive stats and hero stats are empty |
| `Overwatch.GetAll` | cogs/overwatch.py:277-292 | a tag or mode error is passed on; the platform is `get_platform`'s; on PC the region is `get_region`'s over the regions with data, and its error is passed on; other platforms use region `any`; once the tag, mode and region resolve, the result is Ok exactly when that region has data, with the resolved tag, the mode after the competitive fallback, the region and the platform; a region without data is an error |
| `SmashModes.Modes` | cogs/smash/modes.py:27-29 | every mode is registered under its lower-cased class name, and each key is the lower-cased name of the mode it maps to |
| `SmashModes.IsBannedSnapshot` | cogs/smash/models.py:69-70 | `game.is_banned(f)` holds iff some player's bans in the snapshot contain `f` |
| `SmashModels.Game.IsBanned` | cogs/smash/models.py:277-278 | some player of the match has banned the fighter (its snapshot form is `SmashModes.IsBannedSnapshot`) |
| `SmashModes.SnapshotWinsValid` | cogs/smash/modes.py:102-103 | in a valid match every player's win indices are distinct rounds that exist, so `p.fighters[i] for i in p.wins` is defined |
| `SmashModes.SmashPick` | cogs/smash/modes.py:36-40 | a pick is refused iff some player banned the fighter, with the reason "is banned." |
| `SmashModes.SmashBan` | cogs/smash/modes.py:42-46 | a ban is refused iff the fighter is already banned, with the reason "is already banned." |
| `SmashModes.EliminationPick` | cogs/smash/modes.py:53-59 | refused iff the picker already played the (real) fighter or it is banned; having played it is reported first |
| `SmashModes.EliminationBan` | cogs/smash/modes.py:61-67 | refused iff every player has played the fighter or it is already banned; everyone having played it is reported first |
| `SmashModes.FirstTouch` | cogs/smash/modes.py:76-81 | refused iff some player played or banned the fighter; a result is allowed exactly when it carries no message |
| `SmashModes.FirstTouchDecides` | cogs/smash/modes.py:76-81 | the first player in order who played or banned the fighter decides the reason: "has already been played" if they played it, the banned reason otherwise |
| `SmashModes.SmashdownPick` | cogs/smash/modes.py:74-81 | a pick is refused iff any player played or banned the fighter |
| `SmashModes.SmashdownBan` | cogs/smash/modes.py:83-90 | a ban is refused iff any player played or banned the fighter |
| `SmashModes.SmashdownPickIsBan` | cogs/smash/modes.py:74-90 | in Smashdown a pick is allowed exactly when a ban is |
| `SmashModes.WonFighters` | cogs/smash/modes.py:103 | the fighters of the rounds a player won, in the order of the wins |
| `SmashModes.WonFightersAt` | cogs/smash/modes.py:103 | a fighter is among those won with iff some win index names a round played with it |
| `SmashModes.WonCheck` | cogs/smash/modes.py:97-115 | refused iff banned (reported first) or some player won a round with the real fighter (reported as "has already won.") |
| `SmashModes.PickCheck` | cogs/smash/modes.py:36-105 | every mode's pick check yields a result that carries a message iff it refuses, and never allows a banned fighter |
| `SmashModes.BanCheck` | cogs/smash/modes.py:42-115 | every mode's ban check yields a result that carries a message iff it refuses, and never allows banning a banned fighter |
| `SmashModes.SmashMostLenient` | cogs/smash/modes.py:36-115 | whatever any mode allows, Smash allows too, for picks and for bans |
| `SmashModes.FakeOnlyBanned` | cogs/smash/modes.py:36-115 | a placeholder fighter is refused by any mode iff it is banned: it never counts as played or won |
| `SmashModels.FakeFighterOf` | cogs/smash/models.py:337-360 | succeeds iff the value is `-` or `???`, giving that placeholder, which gives way to a later pick iff it is `-`; otherwise the ValueError message listing both |
| `SmashModels.ArenaId` | cogs/smash/models.py:14-20 | accepted iff the pattern matches (five characters of `0-9A-HJ-NP-Y` in either case, `$` allowing one final newline); the result is the argument upper-cased character by character, otherwise the "is not a valid Arena ID." error |
| `SmashModels.ArenaIdIdempotent` | cogs/smash/models.py:17-20 | an accepted id has no lower-case letter, and passing it through `arena_id` again gives the same id |
| `SmashModels.Words` | cogs/smash/models.py:13-32 | every word that `\W+` splitting keeps is non-empty and made only of word characters |
| `SmashModels.FindNgrams` | cogs/smash/models.py:23-37 | the loop over words and slice starts collects exactly the n-grams of the lower-cased, padded words; an empty text gives the empty set |
| `SmashModels.NgramsLength` | cogs/smash/models.py:34-36 | every n-gram has length `n` |
| `SmashModels.NgramsPadding` | cogs/smash/models.py:32-36 | each word of the text yields the trigram of two spaces and its first letter, and the trigram that ends in the padding space |
| `SmashModels.Similarity` | cogs/smash/models.py:40-47 | undefined (ZeroDivisionError) iff both sets are empty; otherwise between 0 and 1, 1 for equal sets and 0 for disjoint ones |
| `SmashModels.SimilaritySymmetric` | cogs/smash/models.py:40-47 | the similarity does not depend on the order of its arguments |
| `SmashModels.FirstMax` | cogs/smash/models.py:328 | `max` with a key: a position holding the largest value, with every earlier value strictly smaller |
| `SmashModels.GetClosest` | cogs/smash/models.py:323-331 | success names the first roster fighter of greatest similarity, which is above 0; "is not a valid fighter." iff the roster is non-empty and every similarity is 0 |
| `SmashModels.PadTo` | cogs/smash/models.py:87-89 | the fighters padded with `-` rounds up to round `r`, the old ones unchanged |
| `SmashModels.ShiftWinsUp` | cogs/smash/models.py:94-96 | the loop moves every win at or after round `r` up by one and leaves the others |
| `SmashModels.ShiftWinsDown` | cogs/smash/models.py:121-124 | the loop moves every win at or after round `t` down by one and leaves the others |
| `SmashModels.RemoveFirstMultiset` | cogs/smash/models.py:79-80 | `remove(x)` takes away exactly one copy of `x` when there is one, and nothing else |
| `SmashModels.PlayKeepsWins` | cogs/smash/models.py:85-96 | corrected (see Findings): `play` fails exactly for a round before the first; otherwise it keeps the wins valid and as many, and every won round keeps its fighter unless it was a `-` round the pick filled |
| `SmashModels.PlayPlaces` | cogs/smash/models.py:85-96 | `play(f, r)` for `r >= -len` puts `f` at round `r` (counted from the end when negative), padding with `-` beyond the end; earlier rounds are unchanged; a `-` round is overwritten, any other pick is moved one round right |
| `SmashModels.PlayNegativeShifts` | cogs/smash/models.py:90-96 | as written, `play(f, -1)` on three or more rounds with round 0 won inserts before the last round and moves the win to round 1, another fighter; the corrected rule keeps it on round 0 |
| `SmashModels.PlayThenUndo` | cogs/smash/models.py:97-125 | a plain `undo` right after an appended pick restores the fighters and the wins |
| `SmashModels.InsertThenUndo` | cogs/smash/models.py:90-125 | `undo('play', r)` after a pick inserted at round `r` restores the fighters and the wins |
| `SmashModels.WinThenUndo` | cogs/smash/models.py:100-125 | `win` keeps the wins valid and changes nothing when it refuses; `undo('win', r)` of the round just won restores the wins |
| `SmashModels.UndoKeepsWins` | cogs/smash/models.py:108-125 | `undo` succeeds iff there are picks, keeps the wins valid, clears the target round's win; without removing it keeps the fighters, and removing a pick keeps every other win on the fighter it was won with |
| `SmashModels.UndoValid` | cogs/smash/models.py:108-125 | after `undo` the wins are still distinct rounds that exist |
| `SmashModels.Bounded` | cogs/smash/models.py:194-198 | a deque with `maxlen` keeps only the newest `limit` entries, and everything without a bound |
| `SmashModels.BoundedAppend` | cogs/smash/models.py:76-77 | a ban just appended stays in the bounded deque iff the bound is not zero |
| `SmashModels.BoundedTwice` | cogs/smash/models.py:194-198 | rebuilding under a smaller bound keeps the same entries as one rebuild under that bound |
| `SmashModels.Rebounded` | cogs/smash/models.py:194-198 | a rebuilt snapshot bounds only the bans and keeps a valid player valid |
| `SmashModels.Player.constructor` | cogs/smash/models.py:57-64 | a new player has no picks, wins or bans, has not voted to end, and is active |
| `SmashModels.Player.Ban` | cogs/smash/models.py:76-77 | the ban is appended to the bounded deque, where it stays iff the bound is not zero; nothing else changes |
| `SmashModels.Player.Unban` | cogs/smash/models.py:79-80 | the first occurrence is removed; failure (ValueError) iff there was none |
| `SmashModels.Player.VoteToEnd` | cogs/smash/models.py:82-83 | the vote flips and nothing else changes |
| `SmashModels.Player.Rebound` | cogs/smash/models.py:194-198 | the player's bans are rebuilt under the new bound, and the player stays valid |
| `SmashModels.Player.Play` | cogs/smash/models.py:85-96 | corrected (see Findings): the new fighters and wins are those of `play` with the wins moved from the round the pick lands on, negative rounds counting from the end; a round before the first raises IndexError and changes nothing; the player stays valid |
| `SmashModels.Player.Win` | cogs/smash/models.py:100-106 | the result and the new wins are those of `win`; the fighters are unchanged |
| `SmashModels.Player.Undo` | cogs/smash/models.py:108-125 | the result, fighters and wins are those of `undo`, and the player stays valid |
| `SmashModels.AddKeysShape` | cogs/smash/models.py:272-275 | a dict update keeps the old members first and adds each new member once, and no other |
| `SmashModels.Majority` | cogs/smash/models.py:202 | `n // 2 + 1` is the least count above half of `n` |
| `SmashModels.Game.constructor` | cogs/smash/models.py:129-142 | the members join as fresh blank players in order, each member once, under the ban bound given |
| `SmashModels.Game.AddPlayer` | cogs/smash/models.py:272-274 | one dict key updated: a fresh blank player for the member, in place of an old one or at the end; other players are kept |
| `SmashModels.Game.AddPlayers` | cogs/smash/models.py:272-275 | every member given gets a fresh player; one already playing is replaced in place, a new one joins at the end; others are kept |
| `SmashModels.ReboundEach` | cogs/smash/models.py:197-198 | every player in a list of distinct players has its bans rebuilt under the bound |
| `SmashModels.Game.SetMaxBans` | cogs/smash/models.py:194-198 | the bound is stored and every player's bans are rebuilt under it |
| `SmashModels.Game.VotesToEnd` | cogs/smash/models.py:200-202 | a majority of the players still active |
| `SmashModels.Game.WinCounts` | cogs/smash/models.py:291 | the win count of each player, in dict order, as `max` compares them |
| `SmashModels.Game.End` | cogs/smash/models.py:280-294 | the match is ending and its members leave the registry; a won match names the first player with the most wins |
| `SmashModels.PyIndex` | cogs/smash/models.py:90-93 | Python indexing: defined iff `-n <= r < n`, reading `r` or `n + r` |
| `SmashRounds.CountWinsIsCard` | cogs/smash/models/player.py:29-31 | `wins` is the number of rounds whose flag is set |
| `SmashRounds.PlayBeyond` | cogs/smash/models/player.py:60-68 | beyond the last round `play` pads with unwon `-` rounds and puts an unwon round for `f` at `r` |
| `SmashRounds.PlayInside` | cogs/smash/models/player.py:65-68 | on an existing round a `-` pick is replaced keeping its win flag; otherwise a new unwon round is inserted and the later rounds move right |
| `SmashRounds.PlayOutOfRange` | cogs/smash/models/player.py:65 | a round before the start raises IndexError |
| `SmashRounds.PlayKeepsWinCount` | cogs/smash/models/player.py:60-70 | a pick never changes the number of rounds won |
| `SmashRounds.WinSetsOne` | cogs/smash/models/player.py:72-83 | `win` succeeds iff the round exists and is unwon, then sets exactly that flag and the count rises by one; otherwise nothing changes |
| `SmashRounds.UndoRefuses` | cogs/smash/models/player.py:85-97 | `undo` fails, changing nothing, iff there are no rounds or the round given does not exist |
| `SmashRounds.UndoLast` | cogs/smash/models/player.py:88-101 | without a round a plain undo of an unwon last round removes it; of a won one it only clears the win |
| `SmashRounds.UndoAtPlay` | cogs/smash/models/player.py:98-99 | with a round, `play` removes that round and the win it carried |
| `SmashRounds.UndoAtWin` | cogs/smash/models/player.py:100-101 | with a round, another action clears only that round's win |
| `SmashRounds.Round.constructor` | cogs/smash/models/player.py:7-10 | a new round holds the fighter and is not won |
| `SmashRounds.Player.constructor` | cogs/smash/models/player.py:17-23 | a new player has no rounds or bans, no vote to end, and is active |
| `SmashRounds.Player.Wins` | cogs/smash/models/player.py:29-31 | the number of won rounds |
| `SmashRounds.Player.LatestWinRound` | cogs/smash/models/player.py:33-38 | the last won round, with no won round after it, or -1 when none is won |
| `SmashRounds.Player.HasPlayed` | cogs/smash/models/player.py:40-46 | never for a placeholder; otherwise iff some round holds the fighter |
| `SmashRounds.Player.Ban` | cogs/smash/models/player.py:51-52 | the ban is appended and nothing else changes |
| `SmashRounds.Player.Unban` | cogs/smash/models/player.py:54-55 | one copy is removed; failure iff there was none |
| `SmashRounds.Player.VoteToEnd` | cogs/smash/models/player.py:57-58 | the vote flips and nothing else changes |
| `SmashRounds.Player.PadRounds` | cogs/smash/models/player.py:62-64 | `n` fresh unwon `-` rounds are appended and the old rounds are kept |
| `SmashRounds.Player.Play` | cogs/smash/models/player.py:60-70 | the rounds after the call are those `play` gives, or unchanged on IndexError |
| `SmashRounds.Player.Place` | cogs/smash/models/player.py:65-68 | the pick refills a `-` round in place or is inserted as a new round, as `PlacedView` says, or nothing changes on IndexError |
| `SmashRounds.Player.Win` | cogs/smash/models/player.py:72-83 | the result and rounds are those of `win` |
| `SmashRounds.Player.Undo` | cogs/smash/models/player.py:85-102 | the result and rounds are those of `undo`; bans and votes are unchanged |
| `SmashCog.Convert` | cogs/smash/cog.py:109 | an argument typed `Union[int, str]` is an int exactly when `int()` accepts the text, holding its value, and the text otherwise |
| `SmashCog.WinAsWritten` | cogs/smash/cog.py:80-91 | as written: IndexError exactly when the player has rounds and `round - 1` is outside Python's index range, so round numbers of 0 and below can reach a round counted from the end |
| `SmashCog.WinNegativeRound` | cogs/smash/cog.py:86-87 | as written, `w -1` on two rounds records the index -2, which is not a valid win, and `w 1` then records the same round a second time |
| `SmashCog.WinChecked` | cogs/smash/cog.py:80-91 | corrected: an error exactly when the player has rounds and the target round is not one of them; otherwise the wins stay valid, and a new round is recorded only when it was not already won |
| `SmashCog.WinAgrees` | cogs/smash/cog.py:80-91 | the written and corrected `w` agree on every round number that is not negative |
| `SmashCog.UndoActionOf` | cogs/smash/cog.py:97 | `p`/`play` mean play, `w`/`win` mean win, and no other word is accepted |
| `SmashCog.UndoRoundZero` | cogs/smash/cog.py:100-103 | as written, `u 0` on three rounds with the first won pops the last round and leaves the win at index -1, which now names the second round |
| `SmashCog.UndoAsWritten` | cogs/smash/cog.py:95-104 | `u` as written: the action map, then `undo(action, round - 1)`, round 0 reaching index -1 (stated by `UndoRoundZero` and `UndoAgrees`) |
| `SmashCog.UndoChecked` | cogs/smash/cog.py:93-105 | corrected: an unknown action is ignored; removing a pick fails exactly for a round the player does not have; every undo that happens leaves the wins valid |
| `SmashCog.UndoAgrees` | cogs/smash/cog.py:93-105 | the written and corrected `u` agree without a round and for every round from 1 up |
| `SmashCog.SettingOf` | cogs/smash/cog.py:119-139 | each setting is chosen exactly by its name and its abbreviations |
| `SmashCog.ArenaChange` | cogs/smash/cog.py:139-146 | corrected: no value or an empty one removes the id; any other value is refused with the "is not a valid Arena ID." message unless it matches the pattern, and then it is stored as `arena_id` returns it |
| `SmashCog.ArenaOmitted` | cogs/smash/cog.py:109-116 | leaving the value out is refused as written, although the help says it removes the id; the corrected change removes it |
| `SmashCog.DigitsAreId` | cogs/smash/models.py:14-19 | five digits form a valid arena id, which `arena_id` returns unchanged |
| `SmashCog.ArenaDigits` | cogs/smash/cog.py:139-146 | as written, an id of five digits arrives as an int and is refused (TypeError); the corrected change stores it |
| `SmashCog.ArenaAsWritten` | cogs/smash/cog.py:109-146 | `c a` as written: a missing value is refused and an all-digit value raises TypeError (stated by `ArenaOmitted` and `ArenaDigits`) |
| `SmashCog.InRegistry` | cogs/smash/cog.py:216 | the members named who are already in a match, and no others |
| `SmashCog.ByMember` | cogs/smash/cog.py:225 | a match's players keyed by member: exactly its members, each mapped to its own player |
| `SmashCog.Roster` | cogs/smash/cog.py:203-205 | the author joins the members named unless listed already, so the count grows by one exactly then |
| `SmashCog.StartScore` | cogs/smash/cog.py:212-215 | no score means 0, a negative score becomes 0, and any other score is kept |
| `SmashCog.MajorityReached` | cogs/smash/cog.py:161 | a count reaches `votes_to_end` exactly when it is more than half of the active players |
| `SmashCog.NewcomerIn` | cogs/smash/cog.py:237-239 | `add` brings in a member exactly when named and in no match |
| `SmashCog.ElsewhereIn` | cogs/smash/cog.py:240-241 | `add` reports a member exactly when named and in another match |
| `SmashCog.Joined` | cogs/smash/cog.py:251-252 | the dict `add_players` returns: exactly the new members, each mapped to its player |
| `SmashCog.Newcomer` | cogs/smash/cog.py:253-256 | a newcomer is active and holds only empty rounds, up to and including the round given |
| `SmashCog.FillerJoin` | cogs/smash/cog.py:253-256 | a fresh player given the empty pick at round `r` holds `r + 1` empty rounds and no wins |
| `SmashCog.Smash.constructor` | cogs/smash/cog.py:28-30 | the registry of running matches starts empty |
| `SmashCog.Smash.Start` | cogs/smash/cog.py:203-226 | one player or more than 25 is refused, then a start naming anybody already in a match, each time with the registry unchanged, and so is a negative ban limit (ValueError); otherwise a new valid match with the clamped score, and its players join the registry |
| `SmashCog.Smash.Open` | cogs/smash/cog.py:224-225 | a fresh valid match of fresh blank players, and the registry gains exactly its members |
| `SmashCog.Smash.Ban` | cogs/smash/cog.py:55-65 | the ban is made exactly when the mode's ban check passes; otherwise the check's message is the error and the player is unchanged |
| `SmashCog.Smash.Unban` | cogs/smash/cog.py:67-78 | one copy of the ban is removed, or "You have not banned ..." when there is none |
| `SmashCog.Smash.Win` | cogs/smash/cog.py:80-91 | the win is recorded as `WinChecked` says; the match ends exactly when a newly recorded win brings the player to the winning score, and then its members leave the registry |
| `SmashCog.Smash.Finish` | cogs/smash/models.py:280-294 | the match ends, its members leave the registry, and a won match names the first player with the most wins |
| `SmashCog.Smash.End` | cogs/smash/cog.py:155-164 | the player's vote flips; the match ends exactly when more than half of its active players vote to end |
| `SmashCog.Smash.Undo` | cogs/smash/cog.py:93-105 | the outcome and the player's picks and wins are those of `UndoChecked` |
| `SmashCog.Smash.Change` | cogs/smash/cog.py:107-147 | corrected (see Findings): a missing value is taken as `''` for every setting, where the source's required `val` makes discord.py refuse the command before the body runs; each setting is changed as its own method says, and a setting not named, or not changed, keeps its value |
| `SmashCog.Smash.ChangeScore` | cogs/smash/cog.py:119-127 | text is refused; a number is stored clamped to 0 and ends the match exactly when it is positive and someone already has that many wins |
| `SmashCog.Smash.ChangeMode` | cogs/smash/cog.py:128-132 | accepted exactly for a registered mode name; otherwise "is not a valid mode." |
| `SmashCog.Smash.ChangeBans` | cogs/smash/cog.py:133-138 | accepted exactly for a number, which is clamped to 0 and rebuilds every player's bans; otherwise "is not a valid ban amount." and nothing changes |
| `SmashCog.Smash.ChangeArena` | cogs/smash/cog.py:139-146 | the arena id changes as `ArenaChange` says |
| `SmashCog.Smash.Add` | cogs/smash/cog.py:228-257 | members in no match join this one with empty rounds and enter the registry; members already here take part again; members of other matches are only reported |
| `SmashCog.Smash.Sort` | cogs/smash/cog.py:236-243 | the loop returns the newcomers and the members of other matches, and reactivates the members already here |
| `SmashCog.Smash.Take` | cogs/smash/cog.py:237-243 | one member named is added to the newcomers, reported, or reactivated |
| `SmashCog.Smash.Enroll` | cogs/smash/cog.py:251-256 | the newcomers join the match and the registry, with empty rounds up to the round given |
| `SmashCog.Smash.Join` | cogs/smash/cog.py:251-252 | `add_players` and the registry update: the newcomers become fresh blank players of the match, and the others are kept |
| `SmashCog.Smash.Pad` | cogs/smash/cog.py:253-256 | every newcomer gets the empty pick at the round given, when that is a round |
| `SmashCog.Smash.Leave` | cogs/smash/cog.py:259-267 | the player stops taking part and stays registered |
| `SmashCog.Smash.Rejoin` | cogs/smash/cog.py:269-274 | the player takes part again |

## Left out

- Discord I/O: sending, editing and deleting messages, reactions, and embeds. This includes `Game.embed` and its `__hide_rounds` counter, `Game.update`, `repost`, the cog's `on_message` dispatch and `cog_before_invoke` deletion, the `menu.py` pagination, the Overwatch portrait and rank images, and `HERO_INFO` display data.
- Concurrency: the smash inactivity timer (cogs/smash/models.py:144-177), `wait_for` and `asyncio.gather`. Listeners are modelled only as the decision they make.
- Database: all SQL. Stored Overwatch preferences are maps passed in. The new-role settings row is a value. The xkcd cache is left out.
- HTTP and XML: stats fetching, `LagBot.request`, botlist posting, the cat API calls and their XML, and xkcd fetching. Payloads and status codes are parameters.
- Floating point:
  - `time_str` is modelled on whole minutes. Its decimal-hours input and `round()` are not modelled.
  - kpd rounding and fractional `cat_facts` counts are not modelled.
  - `integer` hands anything that is not an integer literal to its float branch, which is not modelled.
  - `compare_ngrams` is computed exactly on reals, not in binary floating point.
- Randomness: every `random.choice`/`randint` draw (pick, flip, xkcd) is a parameter.
- `pick` (cogs/smash/cog.py:34-53) is not modelled as a command. It draws a random fighter or resolves the closest name against the fighter roster, which comes from a data module that is not part of this model. Its pieces are modelled: the mode check (`SmashModes.PickCheck`), the name search over a roster given as a parameter (`SmashModels.GetClosest`), the placeholders (`SmashModels.FakeFighterOf`) and the state change (`SmashModels.Player.Play`).
- `cogs/smash/models/player.py` imports `FakeFighter` from a `fighter` module that is not part of this model. Its placeholders are taken to be those of cogs/smash/models.py: `-` gives way to a later pick and `???` does not.
- `time_str` pluralisation: the helper is called with one argument, while `pluralize` takes three (utils/utils.py:23). Only the hour/minute split and the template chosen are modelled.
- `plural` in cogs/meta.py is imported from code that is not part of this model, so it is a parameter.
- `management.date` calls `datetime.strptime` on the imported module, which has no such function, so it always raises AttributeError. Date parsing is also foreign, so it is not modelled.
- Text built-ins are ASCII-only: `str.lower`/`upper`, `isdigit`, and the white space that `strip()` removes and `int()` ignores around a literal (`Text.IsSpace` leaves out the non-ASCII spaces Python also counts). In the `\W+` split, every non-ASCII character counts as a word character. There is no Unicode normalisation or case folding.
- Members, channels, guilds and messages are modelled by id. Fighters are modelled by name, with a flag for the two placeholders.
- Other files are not modelled: owner `eval`/`exec` (dynamic execution), cog loading in `cogs/cog.py`, `bot.py` startup, `utils/checks.py`, `cogs/smash/errors.py` and `cogs/base.py`. So are the JSON-backed stream commands in `discordbot.py`.
- `SmashModels.Player.Win`: requires the round index to lie inside the fighters list. The source does no bounds check there: Python also accepts an index from -len to -1 and records it as a negative win (the cog's path to that is `SmashCog.WinAsWritten`), and raises IndexError below -len or from len on.
- `SmashModels.Player.Undo`: requires 0 <= round < len for the `play` action. Python's `pop` also accepts an index from -len to -1 (the cog's path to that is `SmashCog.UndoAsWritten`), and raises IndexError below -len or from len on.
- `SmashModels.Game.End`: a match without players names no winner. The source's `max` raises ValueError there.
- `SmashModels.GetClosest`: an empty roster and an all-empty similarity are distinct error values. The source raises ValueError and ZeroDivisionError for them; their messages are not modelled.
- `SmashCog.Smash.Start`: requires the name it was invoked under to be a registered mode. The framework only invokes the command under those names.
- `Images.VoteTally.Check`: requires a reaction from the cog's own reaction tuple (index below 12). It also requires that the tally has not already stopped. Once the check returns true, `wait_for` no longer calls it.

## Findings

| source | as written | input that shows it | evidently intended | confidence | as-written member | corrected member |
|---|---|---|---|---|---|---|
| cogs/smash/cog.py:86-87 | `w round` passes `round - 1` to `player.win` with no lower bound. Python indexing accepts a negative index and records it as a win | `w -1` on a player with two rounds records index -2 (round 1). `w 1` then records round 1 a second time | only rounds 1..n (0 for the latest) are accepted | not executed | `SmashCog.WinAsWritten`, `SmashCog.WinNegativeRound` | `SmashCog.WinChecked` |
| cogs/smash/models.py:90-96 | at a negative round the pick is inserted counting from the end, but the wins are compared with the raw negative round, so every win moves up. `p 0 name` reaches this through `round_num - 1` at cogs/smash/cog.py:50 | `p 0 D` on rounds A, B, C with round 1 won gives A, B, D, C with the win moved to round 2, which holds B | only the wins at or after the round the pick lands on move up | not executed | `SmashModels.PlayNegativeShifts` | `SmashModels.Player.Play`, `SmashModels.PlayKeepsWins` |
| cogs/smash/cog.py:100-103 | `u round` passes `round - 1` to `player.undo`. Round 0 pops the last pick, and every win at or after index -1 moves down | `u 0` on three rounds with round 1 won pops round 3. The win becomes index -1, which now names round 2 | rounds below 1 are refused when removing a pick | not executed | `SmashCog.UndoAsWritten`, `SmashCog.UndoRoundZero` | `SmashCog.UndoChecked` |
| cogs/smash/cog.py:109-146 | `val` is a required `Union[int, str]` argument, and only ValueError is caught around `arena_id` | `c a` with no value is refused, although the help says it removes the id. `c a 12345` reaches the regex as an int and raises TypeError | omitting the value removes the id, and an all-digit id is accepted | not executed | `SmashCog.ArenaAsWritten`, `SmashCog.ArenaOmitted`, `SmashCog.ArenaDigits` | `SmashCog.ArenaChange` |
| cogs/management.py:153-158 | the collection loop stops only when `len(to_remove) == count` | `purge -1` collects every matching message in the history (up to 1000). `purge 0` does the same whenever the newest message matches | at most `count` messages, and none for a count below one | not executed | `Management.Collect`, `Management.ScanCases` | `Management.CollectBounded` |
| cogs/management.py:167-168 | the Forbidden reply is singular only for `len(to_remove) < 1`, a case that never deletes anything | one undeletable message is reported as "Some messages couldn't be deleted." | singular for one message | not executed | `Management.ForbiddenReply`, `Management.ForbiddenSingle` | `Management.ForbiddenReplyFixed` |
| cogs/management.py:299-303 | the deletion path reads `member.guild.id`, and `member` is not defined there | a guild whose active new-role settings name a deleted role | delete the settings row of `guild.id` | not executed | `Management.MemberUpdateAsWritten`, `Management.MemberUpdateCrashes` | `Management.MemberUpdate` |
| cogs/images.py:154-157 | an unlisted category is reported, but the request is still built with it | `cat foo` requests `...&format=xmlfoo&sub_id=...` | an unlisted category adds nothing to the request | not executed | `Images.CategoryParam`, `Images.CategoryLeaks` | `Images.CategoryParamFixed` |
| cogs/images.py:322-327 | `(-?[0-9]*)/10` also matches with an empty group, and `int('')` raises ValueError | `rerate <id> /10` | the score is reported as an invalid format | not executed | `Images.ReadScore`, `Images.ReadScoreRaises` | `Images.ReadScoreFixed` |
