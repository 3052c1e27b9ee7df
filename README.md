# APQ recruitment plugin — a Dafny model

This project models the core of the AstrBot plugin that organises sign-ups for
the APQ party quest of MapleRoyals (`main.py`, class `APQPlugin`). Players in a
group chat create a recruiting session (`/创建APQ`), join it (`/APQ加入`),
change their entry (`/APQ更换`), look at the numbers (`/APQ查询`), and finally
let the plugin cut the sign-ups into teams of six (`/APQ完成`). Anyone may
cancel (`/APQ取消`). Admins may delete someone's entry (`/APQ删除`) or reset
everything (`/APQ重置`).

The plugin's state is a dictionary with a status, an insertion-ordered
`teams` dictionary and a `free` pool of sign-up records. Here it is
`Records.State`, with the teams as a sequence of named teams. The modules are:

- `Text`: Python's `str.strip`, `lower`, `replace` and `str(n)` on the strings
  the plugin handles, using Python's own set of whitespace characters.
- `Records`: players, teams, the state, and the counts the replies report.
- `Parse`: `_parse_gender`, the join-line regular expression and
  `_format_player_info`.
- `Auth`: the three admin checks.
- `Roster`: the state helpers as functions on values. These are removing a
  user everywhere, the nested first-match scans, and the edit of
  `/APQ更换`.
- `Assign`: `_assign_free`. It first tops up the existing teams in order, then
  opens fresh `队伍N` teams.
- `Commands`: each command handler as a function from the state and its
  inputs to the new state and the kind of reply. The lemmas beside them state
  what each command guarantees and that all of them keep the state invariant
  `Commands.Inv`.
- `Plugin`: the class `APQPlugin`. Its fields are updated in place by methods
  that follow the handlers' loops. Each method is proved to produce exactly
  the state and reply that the matching `Commands` function describes.

A record's scan order is team by team in dictionary order, each team's
members in order, and then the free pool (`Records.AllRecords`). Every lookup
and edit of the plugin is stated against that order.

## Model

| member | source | states |
|---|---|---|
| Text.TrimStart | main.py:412-414 | the result is a suffix of the input that starts with a non-whitespace character (or is empty) |
| Text.TrimStartBlank | main.py:412-414 | what `lstrip` takes away is whitespace only |
| Text.TrimEnd | main.py:412-414 | the result is a prefix of the input, what is cut off is whitespace, and the result ends in a non-whitespace character or is empty |
| Text.Strip | main.py:412-414 | `strip()` leaves no whitespace at either end |
| Text.StripShape | main.py:412-414 | `strip()` returns a middle slice of the input, with only whitespace on each side of it |
| Text.TrimStartPadded | main.py:412-414 | `lstrip` of blank padding followed by a word that does not start with whitespace gives back the word |
| Text.TrimEndPadded | main.py:412-414 | `rstrip` of a word followed by blank padding gives back the word |
| Text.StripPadded | main.py:412-414 | stripping a word padded with whitespace on both sides gives back the word exactly |
| Text.StripClean | main.py:674-676 | a string with no whitespace at either end is its own strip |
| Text.StripIdempotent | main.py:745 | stripping twice is the same as stripping once |
| Text.LowerChar | main.py:343 | no upper-case ASCII letter is left after lower-casing a character |
| Text.LowerCharSpace | main.py:343 | lower-casing keeps whitespace as whitespace and non-whitespace as non-whitespace |
| Text.Lower | main.py:343 | same length as the input, and lower-cased character by character |
| Text.LowerIdempotent | main.py:343 | lower-casing twice is the same as lower-casing once |
| Text.LowerClean | main.py:343 | a string without upper-case letters is its own lower-case form |
| Text.RemoveAll | main.py:370 | `replace(p, "")` never makes the text longer |
| Text.RemoveAllAbsent | main.py:370 | a text where the command prefix does not occur is left unchanged |
| Text.RemoveAllPrefix | main.py:370 | a leading command prefix is removed by the replacement |
| Text.NatToString | main.py:297 | `str(idx)` is a non-empty string of decimal digits |
| Text.NatToStringLength | main.py:297-300 | a number of at least 10^k has more than k digits |
| Records.TeamNames | main.py:284 | the list of dictionary keys, one per team, in order |
| Records.FlattenSingle | main.py:228-236 | a single team's scan is its members |
| Records.FlattenConcat | main.py:228-236 | scanning two runs of teams one after the other is scanning their concatenation |
| Records.TotalMembersIsFlatLength | main.py:570 | summing the team sizes counts every team member exactly once |
| Records.CountGender | main.py:572-576 | a gender count never exceeds the number of records counted |
| Records.CountGenderConcat | main.py:572-576 | the gender count of two lists is the sum of their counts |
| Records.TeamsGenderCountIsFlatCount | main.py:572-575 | counting a gender team by team equals counting it over all team members in scan order |
| Records.CountGenderMultiset | main.py:619-621 | the gender count does not depend on the order of the records (used for shuffled teams) |
| Records.GenderCountsCover | main.py:570-576 | when every record carries `br` or `gr`, the two gender counts add up to the total |
| Parse.GenderCode | main.py:346-351 | `br` and `新娘` map to `br`, `gr` and `新郎` map to `gr`, and every other word is rejected, in both directions |
| Parse.ParseGender | main.py:343-353 | an accepted word always yields one of the two canonical codes |
| Parse.ParseGenderStrip | main.py:343 | the surrounding whitespace of the gender word does not matter, and a blank word is rejected |
| Parse.BlankGenderCode | main.py:343-353 | the empty word has no gender code |
| Parse.GenderTokenNoSpace | main.py:381 | every spelling of the pattern's gender group is non-empty and has no whitespace |
| Parse.GenderTokenParses | main.py:381 | every gender spelling the join pattern accepts, in any ASCII letter case, is one `_parse_gender` accepts, and it maps to `br` exactly for the bride spellings |
| Parse.TakeToken | main.py:381 | splits off the longest whitespace-free prefix, and the two parts make up the input |
| Parse.TakeTokenSplit | main.py:381 | a whitespace-free word followed by whitespace or nothing is split exactly there |
| Parse.Gap | main.py:381 | splits off the leading whitespace, and the rest is the `lstrip` of the input |
| Parse.Tail | main.py:381 | splits off the trailing whitespace, and the rest is the `rstrip` of the input |
| Parse.MatchJoinPattern | main.py:381-392 | the regular expression `^\s*(\S+?)\s+(br\|gr\|新郎\|新娘)\s+(\S.*?)\s*$` under `re.IGNORECASE`; its contract is carried by `MatchJoinSound`, `MatchJoinComplete` and `MatchJoinExact` |
| Parse.MatchJoinSound | main.py:381-392 | every match of the join pattern has the pattern's shape: optional blank, an id, blank, a gender word, blank, a job, optional blank |
| Parse.MatchJoinComplete | main.py:381-392 | every text of that shape is matched, and the groups are exactly its parts |
| Parse.MatchJoinExact | main.py:381-392 | the pattern returns `(id, gender, job)` if and only if the text has that shape with those parts |
| Parse.MatchJoinFields | main.py:388-395 | a matched id has no whitespace, the gender is one of the four spellings, and the job is non-empty, already stripped and contains no `\n` (the pattern's `.` excludes only `\n`) |
| Parse.JoinPartsFields | main.py:388-395 | the parts of a text of the join shape satisfy those same field conditions |
| Parse.CommandText | main.py:370 | the message with every `/APQ加入` and then every `/apq加入` deleted, then stripped; described by `RemoveAll`, `RemoveAllAbsent`, `RemoveAllPrefix` and the `Strip` lemmas |
| Parse.ParseJoinCommand | main.py:370-397 | a parsed join command gives a whitespace-free id, a valid gender spelling and a non-empty stripped job |
| Parse.JoinTokenAlwaysParses | main.py:490-500 | once the join line parses, `_parse_gender` always accepts its gender word, so the join command's gender error cannot be reached |
| Parse.GenderText | main.py:327 | `br` is shown as `新娘` and `gr` as `新郎`; any other value is shown unchanged |
| Parse.GenderTextRoundTrip | main.py:327 | the label shown for a code parses back to that code |
| Parse.CleanParses | main.py:343-353 | a word that is already stripped and lower-case is looked up unchanged |
| Parse.FormatPlayerInfo | main.py:321-330 | `[character] label job (QQ: user)`; its contract is carried by `FormatPlayerInfoShowsCharacter` and `GenderText` |
| Parse.UpTo | main.py:330 | the text before the first occurrence of a character is a prefix without that character |
| Parse.UpToSplit | main.py:330 | cutting before a separator gives back the text placed before it |
| Parse.FormatPlayerInfoShowsCharacter | main.py:321-330 | the rendered line `[id] label job (QQ: …)` gives back the record's character id whenever the id has no `]` |
| Auth.IsSuperAdmin | main.py:142-145 | holds exactly when the user id is one of the configured admin ids |
| Auth.IsGroupAdmin | main.py:159-180 | no sender means no rights; with a sender, rights exactly when the host flags it as owner or admin, or its role or its permission lower-cases to `owner` or `admin` |
| Auth.HasAdminRights | main.py:192-194 | an allow-listed user always has rights; anyone else has them exactly when they are a group admin |
| Auth.AdminWordIgnoresCase | main.py:172-177 | role and permission words are compared without regard to letter case |
| Auth.AdminWordExamples | main.py:172-177 | `Admin` and `OWNER` grant rights, but ` admin` with a leading space does not, since the word is not stripped |
| Auth.AllowListMonotone | main.py:192-194 | adding ids to the allow-list never takes rights away |
| Roster.Without | main.py:210 | the filter keeps only records of other users, drawn from the input |
| Roster.WithoutConcat | main.py:207-218 | filtering two lists is filtering each and concatenating the results |
| Roster.RecordsOfConcat | main.py:207-218 | a user's records in two lists are their records in each, concatenated |
| Roster.WithoutKeepsOthers | main.py:207-218 | removing a user leaves no record of them and leaves every other user's records as they were, in order |
| Roster.WithoutAbsent | main.py:209-210 | removing a user who has no record changes nothing (the free pool is only filtered when the user is in it) |
| Roster.WithoutNone | main.py:209-210 | a list with no record of the user is unchanged by the filter |
| Roster.DropUser | main.py:214-218 | no team left by the removal is empty, and there are no more teams than before |
| Roster.DropUserFlatten | main.py:214-218 | removing the user team by team takes out exactly their records from the teams' scan order |
| Roster.DropUserTeams | main.py:214-218 | every team that remains is an old team with its name, minus the user's records |
| Roster.DropUserKeepsNames | main.py:214-218 | the remaining team names stay distinct |
| Roster.DropUserKeepsSizes | main.py:214-218 | a team within `TEAM_SIZE` stays within it |
| Roster.FirstMatch | main.py:250-264 | the index of the first record that matches, with no match before it; no index exactly when no record matches |
| Roster.FirstMatchAt | main.py:250-264 | a match with none before it is the first match |
| Roster.FirstMatchConcat | main.py:250-264 | the first match in two lists is the first match in the first list; only if the first list has none is it the second list's first match, shifted |
| Roster.FirstMatchInFirst | main.py:250-264 | a match in the first list is the first match of the concatenation |
| Roster.FirstMatchInSecond | main.py:250-264 | with no match in the first list, the first match of the concatenation is the second list's, shifted by the first list's length |
| Roster.FirstMatchInNeither | main.py:250-264 | no match in either list means no match in the concatenation |
| Roster.FirstMatchNone | main.py:250-264 | a list where nothing matches has no first match |
| Roster.Locate | main.py:250-264 | the nested scan, team by team and then the free pool, stopping at the first match; its contract is carried by `LocateScanOrder` |
| Roster.LocateScanOrder | main.py:250-264 | the nested team-then-pool scan finds exactly the first matching record in scan order; in a team, it reports that team's name and size, and no earlier team holds a match; otherwise it reports the free pool |
| Roster.LocateFirst | main.py:250-264 | the nested scan reports "not found" exactly when no record matches, and otherwise the first matching record |
| Roster.LocateWhere | main.py:250-264 | a record found in a team is a member of a team with the reported name and size, and no earlier team holds a match; one found in the pool is in the pool |
| Roster.Edit | main.py:702-704 | the edit rewrites the character id, gender and job, and keeps the user id, nickname and QQ number |
| Roster.EditFirstIn | main.py:699-706 | the member loop with `break`: only the first matching record is rewritten; its contract is carried by `EditFirstInChangesOne` and `EditFirstInConcat` |
| Roster.EditTeams | main.py:698-708 | the team scan of `/APQ更换` keeps the number of teams |
| Roster.EditTeamsKeepsShape | main.py:698-708 | the team scan keeps every team's name and size |
| Roster.EditTeamsSkip | main.py:698-708 | teams before the first match are passed over unchanged |
| Roster.FlattenSkip | main.py:698-708 | teams with no match do not affect whether the scan finds a match |
| Roster.EditTeamsHead | main.py:698-708 | a first team with a match is the one edited, and the scan then stops |
| Roster.EditTeamsHit | main.py:698-708 | the first team holding a match is edited and no other team changes |
| Roster.EditTeamsMiss | main.py:698-708 | with no match in any team, the teams are left unchanged |
| Roster.FlattenStep | main.py:698-708 | the scan moves past a team without a match and still has found nothing |
| Roster.EditRecords | main.py:698-718 | the team scan, then the pool scan only if the teams held no match; its contract is carried by `EditRecordsScanOrder` and `EditRecordsNoMatch` |
| Roster.EditRecordsNoMatch | main.py:698-722 | with no match anywhere, the two scans change nothing |
| Roster.EditFirstInConcat | main.py:698-718 | editing the first match in two lists edits the first list if it has a match, and otherwise the second |
| Roster.EditTeamsFlatten | main.py:698-708 | in scan order, the team scan edits exactly the first match among all team members |
| Roster.EditRecordsScanOrder | main.py:698-718 | the team scan followed by the pool scan edits exactly the first match in scan order, and keeps team names, team sizes and the pool size |
| Roster.EditFirstInChangesOne | main.py:698-718 | at most one record changes, and it is the first match; no user id changes; with no match nothing changes |
| Assign.Min | main.py:286-291 | the smaller of the two bounds |
| Assign.Room | main.py:286 | the free places of a team, with none in a full or oversized team |
| Assign.TopUp | main.py:284-291 | the top-up keeps the number of teams |
| Assign.Leftover | main.py:284-291 | the players left after topping up are no more than were in the pool |
| Assign.TopUpFront | main.py:284-291 | the first team takes as many players from the front of the pool as it has room for, and the rest go on to the next teams |
| Assign.TopUpKeepsTeams | main.py:284-291 | each team keeps its name and its old members, which stay in front |
| Assign.TopUpTakesInOrder | main.py:289-290 | the players added team after team, followed by the leftover, are the pool in its order |
| Assign.TopUpPreservesPlayers | main.py:284-291 | topping up neither loses nor invents a player |
| Assign.TopUpFillsGreedily | main.py:284-291 | a leftover means every team is full; a team is only topped up when every team before it is full |
| Assign.TopUpRespectsSize | main.py:284-291 | full or oversized teams are left alone, and no team is filled beyond `TEAM_SIZE` |
| Assign.TeamName | main.py:297 | `队伍` followed by the digits of the index |
| Assign.MaxLen | main.py:298 | no name is longer than the bound |
| Assign.TeamNameUnused | main.py:297-300 | an index with more digits than the longest name gives a name that is not taken, so the probing loop ends |
| Assign.FreshIndex | main.py:296-300 | the first index from the current one whose name is free; every index skipped is a taken name |
| Assign.NewTeams | main.py:294-304 | opening teams keeps the old teams in front |
| Assign.NewTeamsMembers | main.py:294-304 | the new teams hold the rest of the pool, in pool order |
| Assign.NewTeamsCount | main.py:294-304 | exactly one new team is opened per started block of six players |
| Assign.NewTeamsSizes | main.py:294-304 | every new team holds 1 to `TEAM_SIZE` players, and all but the last hold exactly `TEAM_SIZE` |
| Assign.NewTeamsNames | main.py:294-304 | the new names are not yet taken and are distinct from one another, so the names stay distinct |
| Assign.AssignTeams | main.py:276-307 | the top-up followed by the opening of new teams from index 1; its contract is carried by `AssignTeamsSpec` |
| Assign.AssignKeepsOld | main.py:284-291 | old teams stay in front under their names with their old members first, and new teams are opened only when each old team is full |
| Assign.AssignNewSizes | main.py:294-304 | every new team holds 1 to `TEAM_SIZE` players, and all but the last hold exactly `TEAM_SIZE` |
| Assign.AssignWellSized | main.py:276-307 | when every old team holds 1 to `TEAM_SIZE` players, so does every team afterwards |
| Assign.AssignPlayers | main.py:276-307 | the teams afterwards hold exactly the old members and the pool, as multisets |
| Assign.AssignNames | main.py:294-304 | distinct team names stay distinct |
| Assign.AssignTeamsSpec | main.py:276-307 | old teams keep their names and their members in front; every player ends up on exactly one team; names stay distinct; sizes stay within 1..`TEAM_SIZE`; if new teams are opened, every old team is full; every new team holds 1 to `TEAM_SIZE` players and every one but the last holds exactly `TEAM_SIZE` |
| Assign.AssignFromScratch | main.py:276-307 | with no teams yet, the shuffled pool is cut in order into one team per started six, each of 1 to `TEAM_SIZE` players and all but the last of exactly `TEAM_SIZE` |
| Commands.DefaultInv | main.py:66-70 | the default state satisfies the state invariant |
| Commands.Inv | main.py:66-70 | the state invariant: distinct team names, every team of 1 to `TEAM_SIZE` players, nothing stored while idle, canonical gender codes, one record per user; `DefaultInv` shows the default state meets it, and `CreateKeepsInv` through `ResetKeepsInv` show each command keeps it |
| Commands.RemoveUserFromAll | main.py:207-218 | removal keeps the status |
| Commands.RemoveUserFromAllSpec | main.py:207-218 | on the whole state, removal takes out exactly the user's records, leaves everyone else's as they were, and keeps team names distinct and teams within size |
| Commands.FindUserTeamSpec | main.py:228-236 | the lookup fails exactly when no team member is the user; otherwise it reports the first team in dictionary order that holds a record of the user, with that team's size |
| Commands.FindUserTeam | main.py:228-236 | the team scan for the user's id; its contract is carried by `FindUserTeamSpec` |
| Commands.FindCharacterSpec | main.py:250-264 | the lookup fails exactly when no record has the character id; otherwise it returns the first such record in scan order |
| Commands.FindCharacter | main.py:252-264 | the team-then-pool scan for a character id; its contract is carried by `FindCharacterSpec` |
| Commands.FindPlayerByCharacterId | main.py:250-264 | not found exactly when no record has the stripped id; otherwise the first record in scan order with the stripped id |
| Commands.ArgsOf | main.py:417-423 | whether the arguments are blank, the gender is bad, or the arguments are valid follows from their stripped forms |
| Commands.CheckArgs | main.py:412-423 | valid arguments carry a valid gender code |
| Commands.CheckArgsSpec | main.py:412-423 | blank after stripping gives the usage reply; otherwise the arguments are valid exactly when the gender parses, and the fields are the stripped arguments with the canonical code |
| Commands.CreateWith | main.py:417-459 | a reply that reports no change leaves the state unchanged |
| Commands.CreateStep | main.py:400-459 | a reply that reports no change leaves the state unchanged |
| Commands.CreateWithSpec | main.py:417-454 | a blank argument gives the usage reply and a bad gender the gender error, with the state unchanged; a running session with sign-ups gives "already recruiting" with the state unchanged; otherwise the session is created: the creator's record goes to the end of the pool and the status becomes recruiting; the invariant is kept |
| Commands.CreateSpec | main.py:400-459 | a blank argument after stripping gives the usage reply, an unparsable gender the gender error, and a running session with sign-ups "already recruiting", each with the state unchanged; creation succeeds exactly in the remaining case, and the new record holds the stripped fields and the canonical code |
| Commands.CreateKeepsInv | main.py:400-459 | creation keeps the state invariant and keeps an empty team dictionary empty |
| Commands.JoinWith | main.py:490-530 | a reply that reports no change leaves the state unchanged |
| Commands.JoinStep | main.py:462-530 | a reply that reports no change leaves the state unchanged |
| Commands.JoinWithSpec | main.py:490-525 | an unparsed line gives the format error and an idle session "no activity", each with the state unchanged; the gender error never occurs for a parsed line; joining succeeds exactly when the line parses and the status is recruiting |
| Commands.JoinWithRefused | main.py:490-504 | an unparsed line gives the format error, and a join while idle gives "no activity", each with the state unchanged |
| Commands.JoinWithJoined | main.py:511-525 | a parsed line with a known gender during recruiting adds the caller's record at the end of the pool after removing their earlier ones |
| Commands.JoinRecords | main.py:511-525 | a join drops every earlier record of the user, appends one new record at the end of the scan order, and leaves other users' records as they were |
| Commands.JoinSpec | main.py:462-530 | a line that does not parse gives the format error, and a join while idle gives "no activity", each with the state unchanged; the gender error never occurs; joining succeeds exactly when the line parses and a session is running; afterwards the user has exactly the one new record, with the parsed id, a canonical code and the parsed job, at the end of the scan order; other users are untouched |
| Commands.UniqueWithout | main.py:207-218 | removing a user keeps every remaining user on at most one record |
| Commands.AllCodedWithout | main.py:207-218 | removing a user keeps every remaining record's gender canonical |
| Commands.JoinWithKeepsInv | main.py:490-525 | joining keeps the state invariant and keeps an empty team dictionary empty |
| Commands.JoinKeepsInv | main.py:462-530 | joining keeps the state invariant and keeps an empty team dictionary empty |
| Commands.Query | main.py:547-582 | the status reply is either "no activity" or a report |
| Commands.QuerySpec | main.py:547-576 | "no activity" exactly when nothing is signed up; otherwise the report counts every record once, counts each gender correctly, and the two gender counts add up to the total |
| Commands.QueryStats | main.py:570-576 | the counts of the status reply; their meaning is carried by `QuerySpec` |
| Commands.NoRecordsIffEmpty | main.py:547-548 | with no empty team stored, there is no record exactly when there is no team and the pool is empty, which is the emptiness test of the handlers |
| Commands.FinishStep | main.py:599-628 | a reply that reports no change leaves the state unchanged |
| Commands.FinalTeams | main.py:604-606 | the pool is assigned only when it is not empty; its contract is carried by `FinalTeamsSpec` |
| Commands.FinalTeamsSpec | main.py:604-606 | the final teams hold every signed-up player exactly once, under distinct names and within size; with no teams before, the shuffled pool is cut in order, all teams full but the last |
| Commands.TeamStats | main.py:619-621 | the counts of the finish reply; their meaning is carried by `TeamStatsCount` |
| Commands.TeamStatsCount | main.py:619-621 | over teams that hold exactly the given records, the total and the two gender counts are those of the records |
| Commands.FinishSpec | main.py:599-628 | with nothing signed up the reply is "no activity" and nothing changes; with sign-ups the session is always finished: every signed-up player is on exactly one final team, the counts match the sign-ups, names are distinct, sizes are within 1..6, and the state is cleared; with no teams before, the shuffled pool is cut in order into teams that are all full but the last |
| Commands.FinishKeepsInv | main.py:585-632 | finishing keeps the state invariant |
| Commands.CancelStep | main.py:651-656 | a reply that reports no change leaves the state unchanged |
| Commands.CancelByAnyone | main.py:644-656 | the result of a cancel does not depend on who sends it; with sign-ups the state is cleared to the default state, and without any the reply is "no activity" with the state unchanged |
| Commands.ReplaceWith | main.py:695-728 | a reply that reports no change leaves the state unchanged |
| Commands.ReplaceStep | main.py:662-728 | a reply that reports no change leaves the state unchanged |
| Commands.ReplaceWithSpec | main.py:695-722 | "not joined", with the state unchanged, exactly when no record in scan order belongs to the caller (or, for an admin, no record exists at all); otherwise the reply is always "replaced": only that first record is rewritten, and the status, team names, number of teams and team sizes are kept |
| Commands.ReplaceWithArgs | main.py:679-685 | a blank argument gives the usage reply and a bad gender word the gender error, each with the state unchanged |
| Commands.ReplaceSpec | main.py:662-728 | a blank argument gives the usage reply and an unparsable gender the gender error, each with the state unchanged; with valid arguments, a record the caller may edit always gets the "replaced" reply and only the first such record in scan order is rewritten with the stripped fields, keeping status, team names, number of teams and team sizes; with no such record the reply is "not joined" and nothing changes |
| Commands.AdminReplaceEditsOthers | main.py:695-718 | an allow-listed admin with no record of their own rewrites another player's record, while a plain user gets "not joined" |
| Commands.UniqueEdit | main.py:698-718 | the edit keeps every user on at most one record, and every gender canonical |
| Commands.ReplaceWithKeepsInv | main.py:695-728 | replacing keeps the state invariant and keeps an empty team dictionary empty |
| Commands.ReplaceKeepsInv | main.py:662-728 | replacing keeps the state invariant and keeps an empty team dictionary empty |
| Commands.DeleteWith | main.py:741-766 | a reply that reports no change leaves the state unchanged |
| Commands.DeleteStep | main.py:731-766 | a reply that reports no change leaves the state unchanged |
| Commands.DeleteWithSpec | main.py:741-766 | non-admins change nothing; a blank id gives the usage reply with the state unchanged; "not found", with the state unchanged, exactly when no record has the id; when some record has it the reply is always "removed": the new state is the removal of the user behind the first such record from every team and from the pool, the status is kept, that user has no record left, and nobody else loses any |
| Commands.DeleteSpec | main.py:731-766 | the same, with the rights from the admin checks and the stripped id |
| Commands.DeleteWithKeepsInv | main.py:741-766 | deleting keeps the state invariant and keeps an empty team dictionary empty |
| Commands.DeleteKeepsInv | main.py:731-766 | deleting keeps the state invariant and keeps an empty team dictionary empty |
| Commands.ResetStep | main.py:779-783 | a reply that reports no change leaves the state unchanged |
| Commands.ResetSpec | main.py:778-783 | a reset without admin rights is refused with the state unchanged; an admin's reset always ends in the default state |
| Commands.ResetKeepsInv | main.py:769-786 | resetting keeps the state invariant |
| Commands.NoStoredTeams | main.py:400-786 | from a state without teams, no command stores a team, because only finishing creates teams and finishing clears the state |
| Plugin.APQPlugin.constructor | main.py:66-70 | a new plugin holds the configured admin ids and the default state |
| Plugin.APQPlugin.RemoveUserFromAll | main.py:207-218 | the fields change exactly as `Commands.RemoveUserFromAll` describes |
| Plugin.APQPlugin.DropUserScan | main.py:214-218 | the team loop gives `Roster.DropUser` of the teams |
| Plugin.APQPlugin.FindUserTeam | main.py:228-236 | the nested loop returns `Commands.FindUserTeam` of the state |
| Plugin.APQPlugin.FindPlayerByCharacterId | main.py:250-264 | returns `Commands.FindPlayerByCharacterId` of the state |
| Plugin.APQPlugin.FindCharacter | main.py:252-264 | the team loop and then the pool loop return `Commands.FindCharacter` of the state |
| Plugin.APQPlugin.AssignFree | main.py:276-307 | the teams become `Assign.AssignTeams` of the old teams and the shuffled pool, the pool is emptied, and the status is kept |
| Plugin.APQPlugin.TopUpTeams | main.py:284-291 | the top-up loop gives `Assign.TopUp` and `Assign.Leftover` |
| Plugin.APQPlugin.FillTeam | main.py:289-291 | the inner loop moves as many front players as fit into the team |
| Plugin.APQPlugin.OpenTeams | main.py:294-304 | the naming loop gives `Assign.NewTeams` from index 1 and changes nothing else |
| Plugin.APQPlugin.CreateApq | main.py:400-459 | state and reply as `Commands.CreateStep` |
| Plugin.APQPlugin.CreateChecked | main.py:417-459 | state and reply as `Commands.CreateWith` |
| Plugin.APQPlugin.JoinApq | main.py:462-530 | state and reply as `Commands.JoinStep` |
| Plugin.APQPlugin.JoinParsed | main.py:494-530 | state and reply as `Commands.JoinWith` |
| Plugin.APQPlugin.QueryApq | main.py:533-582 | the reply is `Commands.Query` of the state, and nothing changes |
| Plugin.APQPlugin.FinishApq | main.py:585-632 | state and reply as `Commands.FinishStep` |
| Plugin.APQPlugin.CancelApq | main.py:635-659 | state and reply as `Commands.CancelStep`, so by `CancelByAnyone` a cancel with sign-ups clears the state, whoever sends it |
| Plugin.APQPlugin.ReplaceApq | main.py:662-728 | state and reply as `Commands.ReplaceStep` |
| Plugin.APQPlugin.ReplaceFirst | main.py:695-722 | the two scans give the state and reply of `Commands.ReplaceWith` for valid fields |
| Plugin.APQPlugin.EditTeamsScan | main.py:698-708 | the team loop gives `Roster.EditTeams`, and reports a hit exactly when some team member matches |
| Plugin.APQPlugin.EditFirst | main.py:699-706 | the member loop gives `Roster.EditFirstIn`, and reports a hit exactly when some record matches |
| Plugin.APQPlugin.DeleteApq | main.py:731-766 | state and reply as `Commands.DeleteStep` |
| Plugin.APQPlugin.ResetApq | main.py:769-786 | state and reply as `Commands.ResetStep`, so by `ResetSpec` only an admin resets, to the default state |

## Left out

- Persistence: `_load_database` and `_save_database` (main.py:73-109) read and write a JSON file. The model keeps the state in memory and starts from the default state. A file that breaks the state invariant is not modelled.
- Host plumbing: the AstrBot event object, command registration and reply sending are not modelled. The sender's id, nickname, role attributes and the raw message text are parameters.
- Message extraction in `join_apq` (main.py:474-487) picks the message text from the event. The text is a parameter of `JoinStep`.
- `random.shuffle` in `_assign_free` is not modelled. The shuffled pool is a parameter, required to be a permutation of the pool; every result holds for any such order.
- Reply texts and their formatting are not modelled. A reply is named by its kind and carries the values it reports. `_format_player_info` is modelled only to state what it shows of the character id.
- The `Main` entry point (main.py:789-794) is not modelled.
- Text.Lower: lower-cases ASCII letters only. For the words compared here (`br`, `gr`, `owner`, `admin` and the two Chinese words), this decides the same as Python's full Unicode `lower()`.
- Records.Player: the `.get(..., default)` fallbacks for missing keys and the `"?"` placeholders in replies are not modelled. Every record is complete.
- Records.Status: the value `completed` is never written by the code, so it is not a status of the model.
- Auth.IsGroupAdmin: the host's sender object is given already normalised to four fields. A role or permission that is not a string becomes "".
- Aliasing: the Python handlers edit member lists and record dictionaries in place, and the model works on values. No record is shared between two lists, so this makes no difference.
- The repository's later plugin generation (a single roster with a captain, automatic completion at six players, rejection of duplicate characters and a leave command) is not what `main.py` does. The model follows `main.py`.
- Join: accepts a character id that is already signed up under another user. The code has no duplicate check, and the model has none either.
