# blocklist-auto, modelled in Dafny

blocklist-auto maintains AdGuard/Adblock-style DNS block lists as text files.
This project models its working parts:

- `clean_and_normalize_domain` in app.py: turns one line (`||d^`, `@@||d^`, a
  hosts line, a URL, `www.` text) into a bare lower-case domain, or gives
  `None`. Modelled in `app_domain.dfy` (module `AppDomain`). The rule syntaxes
  it shares with the second copy live in `rules.dfy` (`RuleSyntax`).
- The `/add_to_whitelist` handler in app.py: normalizes the submitted domain,
  reads the personal whitelist and writes it back sorted, under a header, with
  the new domain added. Modelled in `app_whitelist.dfy` (`AppWhitelist`). The
  loop that reads domains into a set is shared with the cleaner
  (`domain_sets.dfy`, `DomainSets`).
- check_whitelist_duplicates.py: its own normalizer and
  `clean_personal_whitelist`, which rewrites the whitelist with each domain
  once, in order. Modelled in `whitelist_cleaner.dfy` (`WhitelistCleaner`).
- generate_combined_list.py: reads the URL manifest, loads every whitelist,
  filters every downloaded and custom block list line by line, and writes the
  combined `||d^` list. Modelled in `combined_list.dfy` (`CombinedList`).
- scripts/gerar.py: keeps the non-whitelisted `||d^` domains of the
  consolidated list, sorts them by their reversed text, drops every subdomain
  of a domain already kept, and writes the final list. Modelled in
  `final_blocklist.dfy` (`FinalBlocklist`).

A block rule is `||d^` and an allow rule is `@@||d^`. The shared groundwork is in these files:

- `pystr.dfy` (`PyStr`): the Python string methods the scripts call.
- `ordering.dfy` (`Ordering`): Python's code-point string order, and `sorted`
  with and without the reversed-text key.
- `folds.dfy` (`Folds`): the set-building and left-fold shapes of the loops.
- `wrappers.dfy`: `Option`.

Every file read becomes a parameter holding its lines, without their
terminators. A missing file is `None`. Every file written becomes a result
holding its lines. The scripts' loops are methods. Each is proved equal to a
function, and the functions carry the lemmas.

Three behaviours of the code are easy to miss:

- Neither generate_combined_list.py nor scripts/gerar.py validates domains
  against the domain grammar, and neither strips `www.`, so a `www.` domain is
  kept as it is (`FinalBlocklist.WwwKept`).
- The filter of generate_combined_list.py keeps any text that holds a dot and no space and does
  not start with a skipped prefix.
- app.py's `www.` stripping is not idempotent (`AppDomain.WwwTwice`).

## Model

| member | source | states |
|---|---|---|
| AppDomain.Tidy | app.py:28-29 | one leading `www.` and one trailing `/` are removed, and putting them back gives the input |
| AppDomain.CandidateAccepted | app.py:33-35 | a candidate that is a domain of the pattern is the result |
| AppDomain.Accepted | app.py:15-35 | a line whose steps end in a domain without `www.` normalizes to that domain |
| AppDomain.DomainAccepted | app.py:30-35 | a domain passes the final guard and is left alone by the `www.`/`/` step |
| AppDomain.PlainTextUntouched | app.py:15-27 | text of domain characters is unchanged by trimming, lower-casing, the URL step and the rule step |
| AppDomain.DomainIsFixedPoint | app.py:14-35 | a domain not starting with `www.` normalizes to itself |
| AppDomain.NormalizedIsDomain | app.py:30-35 | every result matches the domain pattern, is non-empty, has no space and does not start with `#`, `!` or `/` |
| AppDomain.NormalizeResult | app.py:33-35 | a result is the candidate that passed the guard |
| AppDomain.NormalizeIdempotent | app.py:14-35 | normalizing a result that does not start with `www.` gives it back |
| AppDomain.RulesGiveDomain | app.py:22-23 | the block rule and the allow rule of `d` both normalize to `d` |
| AppDomain.HostsLineGivesDomain | app.py:24-26 | `0.0.0.0 d` and `127.0.0.1 d`, with any extra whitespace, normalize to `d` |
| AppDomain.HostsLineRule | app.py:24-26 | a hosts line gives the trimmed text after its address |
| AppDomain.WwwGivesDomain | app.py:28-29 | `www.d` and `www.d/` normalize to `d` |
| AppDomain.WwwRule | app.py:16-27 | text starting with `www.` is neither a URL nor a rule |
| AppDomain.UrlGivesNetloc | app.py:16-21 | a URL whose netloc is a domain normalizes to that netloc |
| AppDomain.UrlWithPortRejected | app.py:18-19 | a URL whose netloc keeps a `:` port is refused |
| AppDomain.TidyChars | app.py:28-29 | tidying only removes characters, and only `w`, `.` and `/` |
| AppDomain.ForeignCharRejected | app.py:15-34 | a character outside the domain alphabet that no step removes makes the line give `None` |
| AppDomain.CandidateChars | app.py:15-29 | the steps before the guard add no character the line lacks, other than lower-case letters |
| AppDomain.SubdomainIsDomain | app.py:30-32 | a valid label in front of a domain gives a domain |
| AppDomain.ExampleDomain | app.py:30-32 | `example.com` matches the pattern |
| AppDomain.WwwOnce | app.py:28 | `www.` followed by a domain normalizes to the domain |
| AppDomain.WwwTwice | app.py:28 | only one `www.` is removed per call, so normalization is not idempotent on `www.www.d` |
| AppDomain.AsWrittenKeepsNewline | app.py:31-34 | as written, the block rule of `d` followed by a newline passes the guard with the newline kept; the corrected guard refuses it |
| AppDomain.AsWrittenAgrees | app.py:31-34 | on a line without a newline, the as-written and corrected guards agree |
| AppDomain.AsWrittenAcceptsMore | app.py:31-34 | the `$` reading accepts every line the full match accepts, with the same result, and agrees with it on every result that is a domain |
| AppDomain.CommentLineRejected | app.py:33-34 | a line whose trimmed text starts with `#` or `!` gives `None` |
| AppDomain.BlankLineRejected | app.py:33-34 | a blank line gives `None` |
| RuleSyntax.HostsSplit | app.py:25 | `split(' ', 1)` of a hosts line cuts at the space after the address |
| RuleSyntax.HostsBranchNeverFails | app.py:24-27 | the `return None` of the hosts branch is unreachable, and the branch gives the trimmed remainder |
| RuleSyntax.StripRuleChars | app.py:22-27 | the unwrapped text holds only characters of the input |
| RuleSyntax.StripRuleKeeps | app.py:22-27 | a character the rule forms do not consume survives unwrapping |
| RuleSyntax.StripRuleUnwraps | check_whitelist_duplicates.py:14-18 | unwrapping undoes both the block-rule and the allow-rule wrapping, for every `d` |
| RuleSyntax.RuleLines | generate_combined_list.py:108-110 | one block-rule line per domain, in the same order |
| DomainSets.Found | app.py:87-89 | a line contributes exactly its normalized domain when that is non-empty |
| DomainSets.CollectedMeans | app.py:85-89 | a domain is collected exactly when some line normalizes to it |
| DomainSets.Count | check_whitelist_duplicates.py:50-53 | the count never exceeds the number of lines |
| DomainSets.CollectedAtMostCount | check_whitelist_duplicates.py:48-53 | the set never holds more domains than were counted |
| DomainSets.CollectedAgree | check_whitelist_duplicates.py:48-53 | normalizers that agree on every line collect and count the same |
| DomainSets.CollectedAppend | check_whitelist_duplicates.py:48-53 | reading two pieces collects the union and adds the counts |
| DomainSets.CollectedFixedPoints | check_whitelist_duplicates.py:48-53 | lines that normalize to themselves are collected as they are, one count each |
| DomainSets.CollectedNothing | check_whitelist_duplicates.py:48-53 | lines that normalize to nothing give the empty set and count zero |
| DomainSets.CollectAll | app.py:85-89 | the loop ends holding every non-empty normalized domain of the lines and nothing else |
| DomainSets.IgnoredPrefix | app.py:97-100 | header lines that give no domain leave the set of what follows unchanged |
| AppWhitelist.Status | app.py:52-123 | the status is 200 exactly for the two success answers and 400 exactly for a missing or invalid domain |
| AppWhitelist.Header | app.py:98-100 | the header is three lines: the title, a `!` time-stamp line and an empty line |
| AppWhitelist.ExistingMeans | app.py:85-89 | a domain is already listed exactly when some line of the file normalizes to it |
| AppWhitelist.ReadDomains | app.py:85-89 | the loop collects exactly the file's existing domains |
| AppWhitelist.ExistingAreDomains | app.py:85-89 | every existing domain matches the pattern |
| AppWhitelist.AddToWhitelist | app.py:53-116 | the handler answers as the outcome function over token, field, file and time stamp |
| AppWhitelist.AlreadyListedMeans | app.py:91-92 | the answer is "already listed" exactly when some line of the file normalizes to the submitted domain |
| AppWhitelist.UpdatedFile | app.py:94-102 | a rewritten file is the header, then the old domains and the new one, each once and ascending; the new one was absent |
| AppWhitelist.HeaderHasNoDomain | app.py:98-100 | reading the header back gives no domain |
| AppWhitelist.BangLine | app.py:33-34 | a line starting with `!` normalizes to nothing |
| AppWhitelist.RereadRewritten | app.py:94-102 | reading a rewritten file gives back exactly its domains when none starts with `www.` |
| AppWhitelist.UpdateThenReread | app.py:94-102 | after an update, reading the file gives the old domains plus the new one |
| AppWhitelist.AddToWhitelistAsWritten | app.py:52-123 | as written, the handler follows the same early returns with the `$` reading of the pattern for the field and the file, and answers a domain it would add with a server error |
| AppWhitelist.AsWrittenNeverUpdates | app.py:99-123 | as written, no request adds a domain: every field the `$` reading accepts that the file does not list gets 500, and so does every request the corrected handler answers by rewriting the file |
| AppWhitelist.ListedAlike | app.py:85-92 | for a domain, the file lists it under the `$` reading exactly when it lists it under the full match |
| AppWhitelist.ExistingAgree | app.py:85-89 | for lines without a line break, both readings collect the same domains |
| AppWhitelist.AsWrittenOtherwiseAgrees | app.py:52-123 | for a field and file lines without a line break, the handler as written answers as the corrected one except that a rewrite becomes a 500 |
| AppWhitelist.NewlineFieldReachesTime | app.py:62-123 | the block rule of a domain with a line break before its `^` gets 400 from the corrected handler and 500 as written |
| WhitelistCleaner.DomainAccepted | check_whitelist_duplicates.py:28-29 | a domain passes the guard under either reading of the pattern |
| WhitelistCleaner.CleanedIsDomain | check_whitelist_duplicates.py:28-32 | every result matches the pattern and holds only letters, digits, hyphens and dots |
| WhitelistCleaner.DomainIsFixedPoint | check_whitelist_duplicates.py:6-32 | a domain cleans to itself |
| WhitelistCleaner.CleanIdempotent | check_whitelist_duplicates.py:6-32 | cleaning a result gives it back |
| WhitelistCleaner.AsWrittenCleanedIsDomain | check_whitelist_duplicates.py:6-32 | on a line without a line break, the result of the function the script runs matches the pattern and holds only letters, digits, hyphens and dots |
| WhitelistCleaner.AsWrittenCleanIdempotent | check_whitelist_duplicates.py:6-32 | on a line without a line break, cleaning the script's result again gives it back |
| WhitelistCleaner.AsWrittenNotIdempotent | check_whitelist_duplicates.py:28-30 | a block rule with a line break before its `^` cleans, as written, to the domain plus the break, which is no domain and cleans again to the bare domain; the full match refuses it |
| WhitelistCleaner.NewlineOnlyAsWritten | check_whitelist_duplicates.py:28-30 | a domain plus a line break passes the guard only through the `$` reading |
| WhitelistCleaner.RulesGiveDomain | check_whitelist_duplicates.py:14-18 | the block rule and the allow rule of `d` both clean to `d`, under either reading of the pattern |
| WhitelistCleaner.HostsLineGivesDomain | check_whitelist_duplicates.py:20-23 | a hosts line cleans to its domain, whatever whitespace follows the address, under either reading of the pattern |
| WhitelistCleaner.Accepted | check_whitelist_duplicates.py:28-32 | a candidate that is a domain is the result under either reading |
| WhitelistCleaner.CommentLineRejected | check_whitelist_duplicates.py:28-30 | a `#` or `!` line gives `None` |
| WhitelistCleaner.BlankLineRejected | check_whitelist_duplicates.py:28-30 | a blank line gives `None` |
| WhitelistCleaner.CandidateChars | check_whitelist_duplicates.py:11-25 | the steps before the guard add no character the line lacks, other than lower-case letters |
| WhitelistCleaner.CleanAgrees | check_whitelist_duplicates.py:29 | without a newline in the line, the as-written `$` and a full match agree |
| WhitelistCleaner.TerminatorIgnored | check_whitelist_duplicates.py:11 | a line terminator does not change the result |
| WhitelistCleaner.Header | check_whitelist_duplicates.py:58-60 | the header is three lines, each starting with `!` |
| WhitelistCleaner.CleanPersonalWhitelist | check_whitelist_duplicates.py:34-65 | a missing file is reported; otherwise the file is rewritten from its lines, with both counts |
| WhitelistCleaner.FinalAtMostInitial | check_whitelist_duplicates.py:65-71 | the final count never exceeds the initial count |
| WhitelistCleaner.KeptAreDomains | check_whitelist_duplicates.py:48-53 | every kept domain matches the pattern |
| WhitelistCleaner.CleanedFileShape | check_whitelist_duplicates.py:56-63 | the rewritten file is the header, then each kept domain once, ascending; the final count is the number written |
| WhitelistCleaner.HeaderIgnored | check_whitelist_duplicates.py:58-60 | the header contributes no domain and no count |
| WhitelistCleaner.RecleanIsStable | check_whitelist_duplicates.py:34-65 | cleaning a cleaned file writes the same domains in the same order and finds no duplicate |
| WhitelistCleaner.RereadCleaned | check_whitelist_duplicates.py:56-63 | reading a file written from a set of domains gives the set, each counted once |
| WhitelistCleaner.SortedElements | check_whitelist_duplicates.py:62 | the sorted list of a set holds exactly the set |
| CombinedList.ManifestUrls | generate_combined_list.py:34 | there are never more URLs than manifest lines |
| CombinedList.ManifestUrlsMeans | generate_combined_list.py:34 | a URL is taken exactly when some line is not a `#` comment and trims to it |
| CombinedList.IndentedCommentKept | generate_combined_list.py:34 | an indented `#` comment is taken for a URL, `#` included |
| CombinedList.Basename | generate_combined_list.py:37 | the base name has no `/` and is a suffix of the path |
| CombinedList.DestinationName | generate_combined_list.py:37-39 | the file name ends in `.txt` and holds no `/` and no `?` |
| CombinedList.LastSegment | generate_combined_list.py:37 | the base name of `dir/file` is `file` |
| CombinedList.TxtFileKeepsItsName | generate_combined_list.py:37-39 | a `.txt` segment is kept, whatever query follows |
| CombinedList.OtherFileGetsTxt | generate_combined_list.py:38-39 | any other segment gets `.txt` appended |
| CombinedList.Destinations | generate_combined_list.py:36-40 | one destination per URL, in order |
| CombinedList.Download | generate_combined_list.py:36-42 | the loop gives the destination of each URL, in order |
| CombinedList.NoEntry | generate_combined_list.py:50-51 | a line gives no entry exactly when it is blank or a `#` comment once trimmed and lower-cased |
| CombinedList.WhitelistOfMeans | generate_combined_list.py:45-55 | an entry is whitelisted exactly when some line gives it |
| CombinedList.WhitelistAnyOrder | generate_combined_list.py:46 | the whitelist does not depend on the order of the files or lines |
| CombinedList.WhitelistedRule | generate_combined_list.py:53-55 | a whitelisted block rule of `d` is stored as `d` |
| CombinedList.LoadWhitelist | generate_combined_list.py:45-55 | the loops build exactly the whitelist of all the files' lines |
| CombinedList.ClassifyPasses | generate_combined_list.py:62-78 | a line only asks to block text that the filter lets through |
| CombinedList.ExemptNeverBlocked | generate_combined_list.py:67-71 | an allow-rule line never blocks, and exempts `d` exactly when the check flag is set |
| CombinedList.ProcessAdds | generate_combined_list.py:61-82 | a line adds at most its own domain, which passed the filter and was not exempt |
| CombinedList.SkippedNeverAdded | generate_combined_list.py:74-78 | skipped text, bare or wrapped as a block rule, changes nothing |
| CombinedList.ExtractAndAddDomain | generate_combined_list.py:61-82 | one call has the effect of its line on both sets |
| CombinedList.AddDomain | generate_combined_list.py:65-82 | the branches on the trimmed, lower-cased text have the effect of that text |
| CombinedList.StepKeeps | generate_combined_list.py:85-96 | a property every kind of line keeps is kept by every line |
| CombinedList.Grows | generate_combined_list.py:55-82 | both sets only grow |
| CombinedList.ExemptStaysOut | generate_combined_list.py:80-82 | a domain exempt before reading, and not yet blocked, is never blocked |
| CombinedList.BlockedPassFilter | generate_combined_list.py:73-82 | every blocked domain passed the filter |
| CombinedList.WhitelistAfter | generate_combined_list.py:85-96 | with the check flag the whitelist gains exactly the lines' exemptions; without it, nothing |
| CombinedList.BlockedOrExempt | generate_combined_list.py:80-82 | every domain a line asks to block ends blocked or exempt |
| CombinedList.BlockedByALine | generate_combined_list.py:80-82 | a domain is newly blocked only by a line that asks to block it |
| CombinedList.BlockLine | generate_combined_list.py:65-66 | the block rule of `d` asks to block `d` when the filter lets `d` through |
| CombinedList.AllowLine | generate_combined_list.py:67-68 | the allow rule of `d` asks to exempt `d` |
| CombinedList.NotRetroactive | generate_combined_list.py:80-89 | an exemption does not remove a domain blocked by an earlier line |
| CombinedList.NotRetroactiveExample | generate_combined_list.py:80-89 | blocking `a.com`, exempting `a.com`, then blocking `b.com` leaves both blocked |
| CombinedList.ProcessFiles | generate_combined_list.py:85-96 | the nested loops apply every line of every file, in order |
| CombinedList.CustomExemptionIgnored | generate_combined_list.py:92-96 | an exemption in a custom list has no effect |
| CombinedList.OutputShape | generate_combined_list.py:99-111 | the output is the header, then each blocked domain's rule once, and no other rule |
| CombinedList.WriteOutput | generate_combined_list.py:99-113 | the lines written are the output, and the count is the number of blocked domains |
| CombinedList.GenerateCombinedList | generate_combined_list.py:22-113 | the destinations, output lines and count are those of the manifest, whitelists and block lists |
| CombinedList.WhitelistedNeverOutput | generate_combined_list.py:45-96 | a domain in a whitelist file is never in the output |
| FinalBlocklist.WhitelistMeans | scripts/gerar.py:8-11 | an entry is whitelisted exactly when the file exists and a non-blank line trims and lower-cases to it |
| FinalBlocklist.WhitelistNonEmpty | scripts/gerar.py:11 | no whitelist entry is empty |
| FinalBlocklist.DomainsMeans | scripts/gerar.py:15-22 | a domain is kept exactly when some line is a rule for it and it is not whitelisted |
| FinalBlocklist.ReadBlocklist | scripts/gerar.py:15-22 | the loop collects exactly those domains |
| FinalBlocklist.RuleLineDomain | scripts/gerar.py:18-20 | the block rule of `d` gives `d` when `d` is already trimmed and lower-case |
| FinalBlocklist.WwwKept | scripts/gerar.py:18-20 | a `www.` prefix is kept |
| FinalBlocklist.ParentDoesNotExempt | scripts/gerar.py:21-22 | a whitelisted parent does not exempt a subdomain; only an exact match does |
| FinalBlocklist.IsSubIrreflexive | scripts/gerar.py:27-28 | no domain is a subdomain of itself |
| FinalBlocklist.IsSubLonger | scripts/gerar.py:27-28 | a subdomain is longer than its parent and ends with it |
| FinalBlocklist.IsSubTransitive | scripts/gerar.py:27-28 | a subdomain of a subdomain is a subdomain |
| FinalBlocklist.IsSubBefore | scripts/gerar.py:31 | under the reversed-text key a parent sorts strictly before its subdomains |
| FinalBlocklist.Reduced | scripts/gerar.py:32-36 | the result is never longer than the sorted list |
| FinalBlocklist.AnySub | scripts/gerar.py:35 | the scan answers exactly whether the domain is a subdomain of some kept domain |
| FinalBlocklist.RemoveRedundant | scripts/gerar.py:32-36 | the loop builds exactly the reduced list |
| FinalBlocklist.ReducedFrom | scripts/gerar.py:32-36 | the result holds only input domains |
| FinalBlocklist.ReducedAscending | scripts/gerar.py:31-36 | on input ascending by reversed text, the result is ascending too |
| FinalBlocklist.ReducedIndependent | scripts/gerar.py:31-36 | on input ascending by reversed text, no kept domain is a subdomain of another kept domain |
| FinalBlocklist.ReducedCovers | scripts/gerar.py:32-36 | every input domain is kept or is a subdomain of a kept one |
| FinalBlocklist.UnsortedKeepsBoth | scripts/gerar.py:31-36 | without the sort, a subdomain met before its parent is kept together with the parent |
| FinalBlocklist.FinalIsMinimalCover | scripts/gerar.py:15-36 | the final domains are kept domains that cover all the others, with no subdomain pair and no duplicate |
| FinalBlocklist.WriteFinal | scripts/gerar.py:40-42 | one block-rule line per result domain, in order |
| FinalBlocklist.Gerar | scripts/gerar.py:8-42 | the script writes the rules of the reduced, sorted, non-whitelisted domains |
| Ordering.Sort | scripts/gerar.py:31 | the sorted list is the unique strictly ascending list of the set's elements |
| Ordering.SortedOfUnique | check_whitelist_duplicates.py:62 | a set has only one strictly ascending listing |
| Ordering.PrefixLess | scripts/gerar.py:31 | a proper prefix sorts first |
| Ordering.BeforeTotal | scripts/gerar.py:31 | distinct domains are always ordered one way or the other under either key |
| PyStr.ReverseInjective | scripts/gerar.py:31 | distinct domains have distinct reversed keys |

## Left out

- Flask routing, the JSON request and reply bodies, the GitHub contents API, base64, the file's `sha` and `.env` loading are not modelled. The handler's answer is a `Response` value carrying the lines it would write.
- The handler's `requests` HTTP errors are left out: the network is not modelled, so the `HTTPError` branch (app.py:118-120) has no counterpart.
- Downloading (`download_file`, `requests.get`, `time.sleep`) is left out. `Download` gives only the destination file names.
- Directory listings (`glob`) are parameters. Their order does not affect the whitelist (`WhitelistAnyOrder`). It does affect the block list, where an exemption acts only on later lines.
- Time stamps from `time.strftime` are parameters.
- `print` output is left out, and so are the messages of the cleaner's counts. The counts themselves are modelled.
- `str.lower` is modelled for ASCII letters only. Non-ASCII case folding is left out.
- `urlparse` is modelled as: drop tab, CR and LF; the netloc runs from after `//` to the first `/`, `?` or `#`. Its `ValueError` is modelled only for unbalanced brackets.
- The two regular expressions are modelled as predicates on the labels, not by a regex engine.
- Reading with `errors='ignore'` and UTF-8 decoding are left out. Lines are strings.
- scripts/gerar.py raises when `blocklists/consolidated.txt` is missing. The model always takes the input's lines.
- AppDomain.Normalize: `$` is read as a full match here. The source's reading, where `$` also matches before a final newline, is `NormalizeAsWritten` (see Findings).
- WhitelistCleaner.CleanPersonalWhitelist: uses the pattern as written. Its properties assume lines without an embedded newline, which holds for every line read from a file.
- CleanIdempotent: stated for `Clean`, the full-match reading. For `CleanAsWritten`, the function the script runs, idempotence holds only on lines without a line break (`AsWrittenCleanIdempotent`); `AsWrittenNotIdempotent` shows a rule with an inner line break for which it fails. `for line in f` yields no such line, since a line's only break is its terminator and `strip()` removes it.
- CleanedIsDomain: stated for `Clean`. For `CleanAsWritten` it holds only on lines without a line break (`AsWrittenCleanedIsDomain`), for the same reason; `AsWrittenNotIdempotent` gives a result that is no domain.

## Findings

| source | as written | input that shows it | evidently intended | confidence | as-written member | corrected member |
|---|---|---|---|---|---|---|
| app.py:31-34 | `domain_pattern.match(domain)` with a trailing `$`, which also matches just before a final newline | the form field holding the block rule of `example.com` with a newline before its `^` gives `example.com` plus the newline | only a whole-string domain is accepted | not executed | AppDomain.AsWrittenKeepsNewline | AppDomain.Normalize |
| app.py:99 | calls `time.strftime` and `time.gmtime`, but app.py never imports `time` | any new, valid domain: the `NameError` is caught on line 121 and answered with 500 | the file is rewritten and the answer is 200 | not executed | AppWhitelist.AsWrittenNeverUpdates | AppWhitelist.AddToWhitelist |
