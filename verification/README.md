# universal-bot-plugins: a Dafny model of the deterministic plugin logic

The repository is a set of chat-bot command plugins for Matrix and SimpleX.
This project models the parts of those plugins that are pure computation, and
proves properties of them:

- **YouTube summarisation** (the current `youtube/plugin.py` and the older
  `youtube/universal_plugin.py`). This covers:
  - the overlapping chunker;
  - the choice between single-pass and chunked summarisation;
  - the fallback loop over an ordered list of models;
  - the merge of chunk summaries, which falls back to the joined summaries;
  - the per-chat transcript cache, a FIFO bounded per room;
  - the subtitle line filter;
  - the dotted-path `config get` / `config set`;
  - the transcript truncation used for questions about a video.

  The language model is a function parameter `call(model, request)`. A reply
  counts as a success ("truthy") when it is `Some` of a non-empty string.
- **Home Assistant commands** (`homeassistant/plugin.py`) over a snapshot of
  entity states. This covers:
  - the domain of an entity;
  - the per-domain listings and their overflow line;
  - the first-match lookup by lowercased name;
  - validation of the on/off action;
  - the status counts and the entities grouping, each ranked by a stable sort.
- **SimpleX** (`simplex/plugin.py`):
  - the five parsers of the CLI's `{"resp": {"Right"|"Left": …}}` replies;
  - the admin gate of the privileged handlers;
  - the `!admin` command, including the self-removal rule.
- **Speech to text** (`stt_openai/plugin.py`):
  - `${NAME}` expansion over the nested configuration;
  - the API-key, size and extension checks;
  - the form fields of the Whisper request;
  - the formatting of a transcription.

Python semantics are stated once, in `PyText` and `Json`:
- `PyText` covers `strip`, `lower`, `split`, `join`, `in` on strings, `s[:n]`
  with a negative `n`, and a one-pass `re.sub` of a pattern
  `OPEN[^CLOSE]+CLOSE`.
- `Json` covers a JSON/YAML value and the outcomes of `key in c` and `c[key]`,
  including the `TypeError` cases.

Exceptions that a plugin catches become explicit outcomes or defaults.

| file | module | models |
|---|---|---|
| pytext.dfy | PyText | Python string operations used by the plugins |
| json.dfy | Json | dynamically typed values, `in`, `[]`, `.get` |
| chunking.dfy | Chunking | `_chunk_text` (both YouTube plugins) |
| summarize.dfy | Summarize | fallback loops, strategy choice, chunked path, merge |
| cache.dfy | TranscriptCache | `_cache_transcript` (both YouTube plugins) |
| subtitles.dfy | Subtitles | `_parse_subtitles` |
| qa.dfy | QaContext | Q&A transcript truncation |
| ytconfig.dfy | YouTubeConfig | `_get_config`, `_set_config` |
| stablesort.dfy | StableSort | `sorted(..., reverse=True)` |
| homeassistant.dfy | HomeAssistant | listings, lookup, toggle/climate/automation commands |
| haoverview.dfy | HomeAssistantOverview | `_get_status`, `_handle_entities_command` |
| simplex.dfy | SimplexParsers | the five response parsers |
| simplexadmin.dfy | SimplexAdmin | admin gate, `_handle_admin_command` |
| stt.dfy | SttOpenAI | `_expand_env_vars`, checks of `_transcribe_audio`, `_format_transcription` |

## Model

| member | source | states |
|---|---|---|
| Chunking.ChunkText | youtube/plugin.py:730-748 | text no longer than the size comes back as the single chunk `[text]`; every chunk is at most `size` long; there is at least one chunk, and none is empty when the text is longer than the size |
| Chunking.ChunkTextWindow | youtube/plugin.py:738-746 | chunk `i` is `text[i*(size-overlap) .. min(len, i*(size-overlap)+size)]`; every chunk but the last ends before the end of the text |
| Chunking.ChunkTextEnds | youtube/plugin.py:743-744 | the last chunk ends exactly at the end of the text |
| Chunking.ChunksFromWindow | youtube/plugin.py:738-746 | each chunk starts `i*(size-overlap)` after the loop's first start and covers `size` characters or the rest of the text |
| Chunking.ChunkTextReconstructs | youtube/plugin.py:738-746 | the first chunk, followed by every later chunk without its first `overlap` characters, concatenates back to the text |
| Chunking.ConcatDroppedFrom | youtube/universal_plugin.py:365-383 | in the older copy of the chunker, the chunks after a start with their overlaps dropped rebuild the text after `start + overlap` |
| Summarize.TryModels | youtube/plugin.py:659-675 | the models are tried in list order: the result is present iff some model gives a truthy reply; a result is the non-empty reply of the last model tried, and every earlier model failed; on failure every model was tried |
| Summarize.ChunkModels | youtube/plugin.py:752 | the chunk fallback list, or `[chunk_model]` when no list is configured |
| Summarize.FinalModels | youtube/plugin.py:657 | the final fallback list, or `[final_model]` when no list is configured |
| Summarize.SinglePassSummarize | youtube/plugin.py:655-675 | succeeds iff some final-list model replies truthily to the whole transcript; the summary is the reply of the first such model, and is non-empty |
| Summarize.TryModelsFirst | youtube/plugin.py:659-675 | a fallback loop that succeeds returns the reply of the first model whose reply is truthy |
| Summarize.FirstTruthyUnique | youtube/plugin.py:659-675 | only one model is the first truthy one, so that reply is determined |
| Summarize.Somes | youtube/plugin.py:693-706 | the surviving chunk summaries: none survive iff every chunk failed; never more than the chunks |
| Summarize.SomesAppend | youtube/plugin.py:698-706 | collecting survivors commutes with concatenation, so survivors keep chunk order |
| Summarize.SomesAllPresent | youtube/plugin.py:698-706 | when every chunk succeeds, the survivors are exactly the replies, position by position |
| Summarize.LimitedChunks | youtube/plugin.py:689-691 | only the first `max_chunks` chunks are kept: a prefix of the chunk list, of length `min(max_chunks, len)` |
| Summarize.ChunkReplies | youtube/plugin.py:750-769 | reply `i` is the fallback loop over the chunk list for chunk `i`, numbered `i+1` of the total |
| Summarize.ChunkSummaries | youtube/plugin.py:693-706 | the survivors are exactly the non-empty replies of the fallback chain for each chunk of the capped chunking, in chunk order; at most one per processed chunk |
| Summarize.CreateFinalSummary | youtube/plugin.py:860-884 | without an API key the joined summaries come back; when every final model fails the joined summaries come back; any other result is the reply of a final model to the merge request; with a key and some truthy model it is the reply of the first truthy model, the one the fallback loop stops at |
| Summarize.ChunkedSummarize | youtube/plugin.py:677-728 | present iff at least one chunk survived; one survivor is returned directly without a merge call; several survivors are joined with a blank line and merged; when every merge model fails the joined summaries are returned |
| Summarize.JoinNonEmpty | youtube/plugin.py:716 | joining summaries whose first one is non-empty gives non-empty text, so the merge result is never falsy |
| Summarize.SummarizeWithAi | youtube/plugin.py:626-653 | no API key gives None; transcripts of at most 25000 characters take the single-pass path; a longer one is exactly the chunked summarisation of the transcript |
| Summarize.ChunkedSucceedsIffSomeChunkSucceeds | youtube/plugin.py:698-728 | the chunked path returns a summary iff some processed chunk got a truthy reply from some chunk model |
| Summarize.UniversalCreateFinalSummary | youtube/universal_plugin.py:430-477 | without a key, or when the single call fails, the combined text is returned unchanged; otherwise the reply is |
| Summarize.UniversalChunkSummaries | youtube/universal_plugin.py:337-348 | the survivors are exactly the non-empty replies of the fixed chunk model for the first 10 chunks of 8000 characters overlapping by 800, in chunk order |
| Summarize.UniversalSummarizeWithAi | youtube/universal_plugin.py:329-363 | always the chunked path: present iff some chunk survived; one survivor is returned directly; several are joined and merged |
| Summarize.UniversalShortTranscript | youtube/universal_plugin.py:337-359 | a transcript of at most 8000 characters is one chunk, and its summary is the chunk model's reply as is |
| QaContext.TruncateForQa | youtube/plugin.py:902-905 | a transcript within the limit is unchanged; a longer one becomes its first `max` characters followed by "..." |
| QaContext.UniversalQaContext | youtube/universal_plugin.py:495-497 | a transcript of at most 6000 characters is unchanged; a longer one is its first 6000 characters followed by "..."; the same as the current plugin at its default `max_qa_transcript_length` |
| TranscriptCache.Put | youtube/plugin.py:616 | assigning an existing URL updates it in place, keeping the key order; a new URL is appended; other entries are untouched; the URL then reads back the new entry |
| TranscriptCache.PutKeepsDistinct | youtube/plugin.py:616 | after an assignment each URL appears at most once in the room |
| TranscriptCache.PutKeepsOthers | youtube/plugin.py:616 | an assignment changes no other URL's entry |
| TranscriptCache.EvictKeepsNewest | youtube/plugin.py:622-624 | eviction removes the oldest entries first and keeps the newest `max` entries; with a negative maximum the room empties and `popitem` raises |
| TranscriptCache.StoreInRoom | youtube/plugin.py:616-624 | the room after storing is a suffix of the room with the entry assigned, of size at most the maximum |
| TranscriptCache.CacheTranscript | youtube/plugin.py:607-624 | caching disabled changes nothing; otherwise the chat's last video is the URL, the room is bounded by the maximum, and no other chat changes |
| TranscriptCache.LastTranscript | youtube/plugin.py:265-271 | the transcript of the chat's last processed video, when it is still cached |
| TranscriptCache.CachedIsLast | youtube/plugin.py:607-624 | with a maximum of at least 1 and a room within it, the video just cached is the one the chat's next question reads |
| TranscriptCache.StoredIsFound | youtube/plugin.py:616-624 | with a maximum of at least 1 and a room within it, the entry just stored survives eviction |
| TranscriptCache.LookupUnique | youtube/plugin.py:616 | in a room without repeated URLs every entry is the one its URL finds |
| TranscriptCache.ZeroLimitKeepsNothing | youtube/plugin.py:622-624 | with a maximum of 0 even the new entry is evicted |
| TranscriptCache.UniversalCacheTranscript | youtube/universal_plugin.py:314-327 | always caches, with a fixed maximum of 5: the room keeps the newest entries of the room with the entry assigned, the last video is the URL; the chat is added to both maps and no other chat's room or last video changes |
| PyText.Strip | youtube/universal_plugin.py:278 | the stripped line neither starts nor ends with whitespace, and is empty exactly when the line is all whitespace |
| PyText.StripSlice | youtube/universal_plugin.py:278 | the stripped line is one contiguous slice of the line, and only whitespace is cut from either end |
| PyText.JoinSplit | youtube/universal_plugin.py:274 | joining the pieces of `split('\n')` with line breaks gives back the content |
| PyText.SplitJoin | youtube/universal_plugin.py:274 | splitting a line-break join of pieces without line breaks gives back the pieces |
| Subtitles.StripTags | youtube/universal_plugin.py:284 | removing `<...>` tags leaves no tag and adds no character |
| Subtitles.ErasedTagFree | youtube/universal_plugin.py:284 | after one pass of tag removal no `<...>` tag is left |
| Subtitles.TagFreeUnchanged | youtube/universal_plugin.py:284 | text without tags passes through unchanged |
| Subtitles.StripTagsIdempotent | youtube/universal_plugin.py:284 | removing tags twice is removing them once |
| Subtitles.StripStamps | youtube/universal_plugin.py:287 | removing `hh:mm:ss.mmm` stamps never lengthens the text or adds a character |
| Subtitles.NoStampUnchanged | youtube/universal_plugin.py:287 | text without a stamp is unchanged |
| Subtitles.StampRemovalIsOnePass | youtube/universal_plugin.py:287 | the substitution is a single pass: a stamp that appears only once an inner stamp is removed survives |
| Subtitles.StripStampsTagFree | youtube/universal_plugin.py:284-287 | removing stamps from tag-free text creates no tag |
| Subtitles.CleanLine | youtube/universal_plugin.py:278-290 | a stripped line with "-->", empty, starting with "WEBVTT" or all digits is dropped; any other line is kept exactly when its text without tags and timestamps is non-empty, and is then that text |
| Subtitles.PlainLineSurvives | youtube/universal_plugin.py:278-290 | a line that is not skipped and holds no tag or stamp is kept as its stripped self |
| Subtitles.KeptLines | youtube/universal_plugin.py:277-290 | the kept lines are non-empty and tag-free |
| Subtitles.KeptLinesOne | youtube/universal_plugin.py:277-290 | a single line is kept exactly when it cleans to text, and what is kept is its cleaned text |
| Subtitles.KeptLinesEmpty | youtube/universal_plugin.py:277-290 | nothing is kept iff every line cleans to nothing |
| Subtitles.KeptLinesLack | youtube/universal_plugin.py:277-290 | a character absent from every input line is absent from every kept line |
| Subtitles.KeptLinesAppend | youtube/universal_plugin.py:277-290 | lines are filtered one by one, in order |
| Subtitles.ParseSubtitles | youtube/plugin.py:564-589 | the result holds no line break |
| Subtitles.ParseOneLine | youtube/plugin.py:564-589 | end to end: a subtitle text of one line parses to that line's cleaned text, or to "" when the line is skipped or cleans to nothing |
| Subtitles.ParseLines | youtube/universal_plugin.py:271-292 | parsing lines joined by line breaks gives the kept lines joined by single spaces |
| YouTubeConfig.Lookup | youtube/plugin.py:414-423 | the path is followed key by key: the empty path reads the whole value, and a value is found under a key only when the node is an object holding that key |
| YouTubeConfig.GetConfig | youtube/plugin.py:414-423 | a non-object configuration raises; the setting is found exactly when every key of the path leads into an object holding it, and is then the value at the end of the path; it reads as not found exactly when the walk reaches an object without the next key |
| YouTubeConfig.LookupAt | youtube/plugin.py:416-423 | the key-by-key walk finds a value iff the path is defined and then finds the value at its end; it raises KeyError iff some prefix of the path leads to an object lacking the next key |
| YouTubeConfig.RemoveDots | youtube/plugin.py:450 | `replace('.', '')` removes exactly the dots and keeps every other character |
| YouTubeConfig.DecimalLeadingZero | youtube/plugin.py:448-449 | `int()` of digits ignores leading zeros |
| YouTubeConfig.ClassifyValue | youtube/plugin.py:444-453 | priority order: "true"/"false" in any case is a bool, then all digits the int of their decimal value, then dotted digits a float (more than one dot raises), else the string |
| YouTubeConfig.ClassificationPriority | youtube/plugin.py:444-453 | a value of digits only is never a float or a string, and a value is kept as a string exactly when it is none of bool, digits or dotted digits |
| YouTubeConfig.AssignIffFound | youtube/plugin.py:455-462 | the leaf is written iff reading the same path finds a value, and the replaced value is that one |
| YouTubeConfig.AssignThenLookup | youtube/plugin.py:455-462 | after the write, the path reads the new value |
| YouTubeConfig.AssignKeepsOthers | youtube/plugin.py:455-462 | the write changes nothing that a diverging path reads |
| YouTubeConfig.AssignMissingPath | youtube/plugin.py:443-446 | navigation stops at the first missing key: a key missing before the last one gives an invalid path |
| YouTubeConfig.AssignMissingLeaf | youtube/plugin.py:448-450 | when the path up to the last key leads to an object without that key, the setting is invalid |
| YouTubeConfig.SetConfig | youtube/plugin.py:425-469 | only an update changes the configuration; an update stores the classified value after a successful save; with a parsable value, an existing path and a failed save the outcome is a save failure; a key missing before the last is an invalid path; a last key missing from an existing object is an invalid setting naming that key; an unparsable value is an error |
| YouTubeConfig.SetUpdatesIffFound | youtube/plugin.py:425-469 | an update happens iff the value parses, the path already exists and the save succeeds; new keys are never created |
| YouTubeConfig.SetThenGet | youtube/plugin.py:414-469 | get after set reads the stored value, and other paths read as before |
| StableSort.SortDesc | homeassistant/plugin.py:224 | the sort is a permutation of its input |
| StableSort.SortDescSorted | homeassistant/plugin.py:224 | the output is non-increasing in the key |
| StableSort.SortDescStable | homeassistant/plugin.py:539 | items with equal keys keep their input order |
| HomeAssistant.Domain | homeassistant/plugin.py:220 | the domain is the id's part before the first dot: a dot-free prefix followed by a dot, or the whole id |
| HomeAssistant.DomainPrefix | homeassistant/plugin.py:249 | an id starts with `domain.` iff its domain is that domain and the id holds a dot |
| HomeAssistant.OfDomain | homeassistant/plugin.py:249 | exactly the states whose id starts with `domain.` |
| HomeAssistant.OfDomainAppend | homeassistant/plugin.py:312 | the filter keeps snapshot order |
| HomeAssistant.FirstMatch | homeassistant/plugin.py:280-288 | the first entity whose lowercased id or friendly name contains the term; none iff no entity matches |
| HomeAssistant.ListingAsWritten | homeassistant/plugin.py:256-264 | as written: `list[:limit]` is shown, and the overflow line reports `len - 20` whenever `len > limit` |
| HomeAssistant.ListingAsWrittenMiscounts | homeassistant/plugin.py:263-264 | with any limit but 20, a truncated listing's overflow count differs from the number left out |
| HomeAssistant.ListingAsWrittenExample | homeassistant/plugin.py:263-264 | ten entities under a limit of five: five are shown and the line reports -10 |
| HomeAssistant.ListingOf | homeassistant/plugin.py:256-264 | the first `limit` entities are shown; the overflow count plus the shown count is the total |
| HomeAssistant.ListingsAgreeAtDefault | homeassistant/plugin.py:256-264 | at the default limit of 20 both listings agree |
| HomeAssistant.ServiceFor | homeassistant/plugin.py:294 | "on" maps to `turn_on` and "off" to `turn_off` |
| HomeAssistant.ToggleCommand | homeassistant/plugin.py:245-302 | without a name: "none found" iff the domain is empty, else its listing; with a name exactly one of: an empty action asks for one, an action other than on/off is refused, with a valid action "not found" (carrying the lowercased name) iff nothing matches, else the service call on the first match |
| HomeAssistant.ActionCheckedBeforeLookup | homeassistant/plugin.py:271-277 | an invalid action gets the same reply for every snapshot, so it is refused before any lookup |
| HomeAssistant.FirstMatchWins | homeassistant/plugin.py:280-295 | with a valid action, any matching entity guarantees a service call, on that entity or an earlier match |
| HomeAssistant.SensorsCommand | homeassistant/plugin.py:367-397 | the sensor domain listed with the configured limit, or "none found" |
| HomeAssistant.ClimateCommand | homeassistant/plugin.py:403-464 | without a name: "none found" iff there is no climate device, else all of them listed; with a name exactly one of: an empty temperature asks for one, an unparsable one is refused, with a valid one "not found" (carrying the lowercased name) iff nothing matches, else `set_temperature` with that value on the first match |
| HomeAssistant.ClimateFirstMatchWins | homeassistant/plugin.py:441-458 | with a valid temperature, any matching device guarantees a `set_temperature` call with that value, on that device or an earlier match |
| HomeAssistant.AutomationCommand | homeassistant/plugin.py:470-518 | without a name: "none found" iff there are no automations, else their listing; otherwise the term is the words after the subcommand joined by spaces and lowercased, "not found" iff no automation matches it, else the first match is triggered |
| HomeAssistantOverview.InDomain | homeassistant/plugin.py:529-534 | the states of one domain, in snapshot order |
| HomeAssistantOverview.Domains | homeassistant/plugin.py:218-221 | the distinct domains in order of first appearance: a domain is listed iff some state has it |
| HomeAssistantOverview.GroupsAreDomains | homeassistant/plugin.py:529-534 | the grouping loop makes one group per distinct domain, in first-appearance order, each holding exactly that domain's states in snapshot order |
| HomeAssistantOverview.CountsAreGroupSizes | homeassistant/plugin.py:218-221 | the counting loop's counts are the sizes of the grouping loop's groups, domain by domain |
| HomeAssistantOverview.CountsSum | homeassistant/plugin.py:218-221 | the per-domain counts add up to the number of states |
| HomeAssistantOverview.RankedCounts | homeassistant/plugin.py:224 | the ranked counts are a permutation of the counts, non-increasing |
| HomeAssistantOverview.RankingKeepsTies | homeassistant/plugin.py:224 | domains with equal counts keep their first-appearance order |
| HomeAssistantOverview.RankedEntry | homeassistant/plugin.py:224-231 | every ranked entry is a domain of the snapshot paired with its number of states |
| HomeAssistantOverview.RankedLength | homeassistant/plugin.py:224 | one ranked entry per distinct domain |
| HomeAssistantOverview.Status | homeassistant/plugin.py:212-239 | the total is the number of states; the top min(10, domains) ranked domains are shown, in non-increasing order; the overflow line appears iff there are more than 10 domains and reports the rest |
| HomeAssistantOverview.ViewGroup | homeassistant/plugin.py:542-549 | a group shows its first 5 entities, with an overflow count iff it has more, the two adding up to the group size |
| HomeAssistantOverview.RankedGroups | homeassistant/plugin.py:539 | the groups ranked by size, non-increasing: one per distinct domain, each holding its domain's states |
| HomeAssistantOverview.EntitiesOverview | homeassistant/plugin.py:520-560 | an empty snapshot gets "no entities"; otherwise at most 10 distinct domains, largest first, none left out larger than the last shown, each the view of the ranked group at its place with its first 5 states and the rest counted; the total and the domain count |
| HomeAssistantOverview.RankedDistinct | homeassistant/plugin.py:529-539 | the ranking names each domain at most once |
| HomeAssistantOverview.RankedCovers | homeassistant/plugin.py:529-539 | every domain present in the snapshot has a place in the ranking |
| SimplexParsers.RightOf | simplex/plugin.py:533-536 | the value under `resp`/`Right`, read through `.get`, `in` and `[]` with their `TypeError` paths, is exactly the nested-path value |
| SimplexParsers.ParseContacts | simplex/plugin.py:528-551 | the `contacts` value of a `Right` object typed `contactsList` when it has a length; [] when it has none (the length in the log line raises and the handler returns []), when the type differs, `contacts` is missing, or the envelope has another shape |
| SimplexParsers.NullContactsAreEmpty | simplex/plugin.py:538-550 | a `contactsList` whose `contacts` is null parses to [] |
| SimplexParsers.ParseGroups | simplex/plugin.py:569-592 | the `groups` value of a `Right` object typed `groupsList` when it has a length; [] when it has none (the length in the log line raises and the handler returns []) and otherwise |
| SimplexParsers.ParseContactInfo | simplex/plugin.py:553-567 | a `contact` field takes precedence; otherwise the `Right` object itself when it has `localDisplayName`; otherwise None |
| SimplexParsers.ParseGroupInfo | simplex/plugin.py:594-608 | a `group` field takes precedence; otherwise the `Right` object itself when it has `displayName`; otherwise None |
| SimplexParsers.LeftYieldsDefaults | simplex/plugin.py:542-546 | a `Left` envelope gives every parser its default |
| SimplexParsers.RightBeforeLeft | simplex/plugin.py:535-546 | once `Right` is present, the parsers see only its value, whether or not a `Left` is also present |
| SimplexParsers.TakeNonSpace | simplex/plugin.py:619 | `[^\s]*`: the longest whitespace-free prefix |
| SimplexParsers.LinkIn | simplex/plugin.py:617-621 | the link starts with the invitation prefix at its first occurrence, holds no whitespace, and extends to the next whitespace or the end |
| SimplexParsers.LinkInIdempotent | simplex/plugin.py:617-621 | extracting the link from a bare link gives it back |
| SimplexParsers.FirstLinkField | simplex/plugin.py:622-628 | the link of the first string field holding the prefix, in field order; none iff no field holds it |
| SimplexParsers.ParseInviteLink | simplex/plugin.py:610-634 | from a string `Right`, its link iff it holds the prefix; from an object `Right`, the first field's link; otherwise None; a link always starts with the prefix and holds no whitespace |
| SimplexAdmin.DenialMessage | simplex/plugin.py:85-86 | every refusal is "Access denied. Only admins can " followed by the action the handler guards |
| SimplexAdmin.Gate | simplex/plugin.py:203-204 | a non-admin gets a refusal starting "Access denied. Only admins can ", and an admin gets what the handler produces |
| SimplexAdmin.DeniedBeforeWork | simplex/plugin.py:719-720 | a non-admin's reply does not depend on what the handler would do; an admin's reply is the handler's |
| SimplexAdmin.DenialsDistinct | simplex/plugin.py:303-304 | each gated handler refuses with its own text |
| SimplexAdmin.PermissionText | simplex/plugin.py:659 | a list holding "*" reads "all commands"; otherwise every command name appears in the text |
| SimplexAdmin.AdminCommand | simplex/plugin.py:636-705 | a non-admin is refused with no manager call; at most one manager call is made; the caller is never removed; per subcommand: no argument gives help; "list" lists the admins (or says there are none) and shows every admin with its permission text; "add", "remove" and "permissions" without a contact give their usage; "add" and "remove" make their call and report its success; "permissions" reports the contact's admin or public commands; "reload" reloads; anything else is an unknown subcommand |
| SimplexAdmin.SelfRemovalRefused | simplex/plugin.py:678-680 | `remove` of oneself is refused before the manager is called, exactly when the name is the caller's |
| SttOpenAI.ExpandValue | stt_openai/plugin.py:89-104 | strings are expanded; objects keep their keys and lists their length; other values are returned unchanged |
| SttOpenAI.MembersExpandInPlace | stt_openai/plugin.py:97-100 | field and item `i` of the result is field and item `i` of the input, expanded |
| SttOpenAI.ExpandReference | stt_openai/plugin.py:92-96 | `${NAME}` with a non-empty NAME without `}` becomes the variable's value, or stays as written when undefined; the rest is expanded separately |
| SttOpenAI.NoRescan | stt_openai/plugin.py:96 | a substituted value is not scanned again, even when it holds a reference |
| SttOpenAI.NoDollarUnchanged | stt_openai/plugin.py:96 | text without `$` is unchanged |
| SttOpenAI.EmptyEnvIsIdentity | stt_openai/plugin.py:89-104 | with no variables defined the whole configuration comes back unchanged |
| SttOpenAI.Suffix | stt_openai/plugin.py:294 | a suffix is empty or a dot followed by at least one dot-free character |
| SttOpenAI.Extension | stt_openai/plugin.py:294 | the extension holds no dot and no slash |
| SttOpenAI.ExtensionOfFile | stt_openai/plugin.py:294 | `dir/base.ext` has the extension `ext` lowercased |
| SttOpenAI.HiddenFileHasNoExtension | stt_openai/plugin.py:294 | a name like ".ogg", whose only dot comes first, has no extension |
| SttOpenAI.Prune | stt_openai/plugin.py:318 | a field is kept iff its value is not None, with that value |
| SttOpenAI.PrepareTranscription | stt_openai/plugin.py:271-318 | a missing key is refused; then a size above the maximum; then an extension outside the supported formats; otherwise the request carries the model and format when set, and the language unless it is "auto" |
| SttOpenAI.LimitIsInclusive | stt_openai/plugin.py:288 | a file exactly at the size limit is accepted |
| SttOpenAI.DefaultFieldsOmitLanguage | stt_openai/plugin.py:67-83 | under the defaults the form has the model and format but no language |
| SttOpenAI.DefaultsAccept | stt_openai/plugin.py:67-83 | with the defaults and a key, a file of at most 25 MiB with a default extension in any letter case is sent |
| SttOpenAI.FormatTranscription | stt_openai/plugin.py:363-371 | both replies start with the header naming the user; the "no speech" reply is given iff the stripped text is empty; otherwise the stripped text is quoted |
| SttOpenAI.BlankTextIsNoSpeech | stt_openai/plugin.py:365-368 | missing or whitespace-only text reads as no speech |

## Left out

- The HTTP calls are not modelled:
  - OpenRouter is the `call` parameter; an exception or a non-200 response is a `None` reply.
  - The Home Assistant REST client is the snapshot input, and a service call is a `Service` reply value.
  - The Whisper upload stops at the prepared request.
  - The subtitle download and yt-dlp are left out.
- YAML loading and saving are out: saving is the `saved` flag of `SetConfig`, and the loaded configuration is the input.
- The ffmpeg tempo step, asyncio, the WebSocket callbacks and progress messages are out.
- Floats:
  - a float setting keeps only its literal;
  - the climate temperature's `float()` check is the `parsesAsFloat` parameter;
  - MB sizes in messages are not modelled.
- URL recognition (`get_youtube_patterns`, `_is_youtube_url`) is out, as is splitting a URL from a question. They are regular expressions with little behaviour to state.
- Presentation is out: help and usage texts, emoji, icons, the status and listing text layout. Replies are datatypes. Literal reply text is modelled in two places only: the STT replies, with their escaped `\n`, and the SimpleX refusal texts of `SimplexAdmin.DenialMessage`.
- Timestamps in cache entries are an opaque `stamp` field, since `datetime.now()` is not modelled.
- `lower()`, `isdigit()` and `\d` are modelled on ASCII only; non-ASCII letters and digits are outside the model. `isspace()` and `\s` use Python's full whitespace set.
- JSON objects are assumed to have distinct keys; a lookup takes the first binding.
- `CommandContext` is not part of this model: `has_args` is read as "args is non-empty" and `arg_count` as `len(args)`.
- The admin manager is not part of this model. Its answers are the `Manager` parameter of `SimplexAdmin.AdminCommand`.
- The SimpleX handlers behind the gate (invite, contacts, groups, debug, stats) are out. Only their admin check is modelled, by `SimplexAdmin.Gate`.
- core/plugin.py, auth/plugin.py, database/plugin.py, ai/plugin.py and the example plugins are not part of this model. They forward HTTP calls and format text.
- Summarize.SummarizeWithAi: requires `0 <= overlap < size` whenever the chunked path is taken. With other values the source's chunking loop does not terminate or slices oddly, and the source does not reject them.
- Summarize.ChunkSummaries: requires `0 <= overlap < size`, for the same reason.
- YouTubeConfig.ClassifyValue: an `int` is its decimal value but a float is only its literal; no float arithmetic.
- SttOpenAI.PrepareTranscription: the settings are a typed record. A configuration missing `openai` or `processing` keys raises a `KeyError` that the source turns into `None`, and the record cannot express that. The file size is an input, so a missing file is not modelled.
- HomeAssistant.ClimateCommand: whether `float(temperature)` succeeds is a parameter, not Python's float grammar.
- SimplexAdmin.PermissionText: states that each command name appears in the text, not the exact `", "` layout.
- HomeAssistant.ToggleCommand: its listing without a name uses the corrected `ListingOf`. The source reports `len(...) - 20` left over (homeassistant/plugin.py:263-264, 326-327), which `ListingAsWritten` models; see Findings.
- HomeAssistant.SensorsCommand: uses the corrected `ListingOf`, where the source reports `len(sensors) - 20` left over (homeassistant/plugin.py:391-392); see Findings.
- HomeAssistant.AutomationCommand: its listing uses the corrected `ListingOf`, where the source reports `len(automations) - 20` left over (homeassistant/plugin.py:488-489); see Findings.
- Summarize.ChunkModels: the source evaluates `.get('chunk_model')` eagerly as the default of the fallback lookup, so a configuration without `chunk_model` raises `KeyError` and `_summarize_with_ai` returns None (youtube/plugin.py:752). `AiConfig` always holds both models and cannot express that.
- Summarize.FinalModels: the same eager default for `final_model` (youtube/plugin.py:657, 866) is not modelled; a configuration without it makes the source return None.
- A direct `!lights kitchen on` reads `args[1]` as the name, as the source does, and is modelled that way.

## Findings

| source | as written | input that shows it | evidently intended | confidence | as-written member | corrected member |
|---|---|---|---|---|---|---|
| homeassistant/plugin.py:263-264 | the overflow line of the lights, switches, sensors and automations listings reports `len(entities) - 20`, although the listing is cut at the configured `max_entities_per_response` | `max_entities_per_response: 5` and 10 lights: 5 are shown and the line reads "... and -10 more lights" | report the entities left out, `len(entities) - limit` | high (not executed) | HomeAssistant.ListingAsWritten | HomeAssistant.ListingOf |
