# MAL prototypes: trace dashboard and mediated group chat

This project is a Dafny model of the plain-data core of two Streamlit
prototypes.

**`mal_trace_app.py`, the trace app.** An originator uploads works (audio
pieces). Responders send "traces" of how a piece felt: one word, a density,
a colour, a reverb level, a dwell time and a memo. The originator's
dashboard then works on one work's traces:

- it groups them by the cluster key `word|rv<reverb>` into an
  insertion-ordered dictionary;
- it ranks the groups by size with Python's stable `sorted(...,
  reverse=True)`;
- it shows the four largest as cards, each with its count, its average
  dwell and its first three traces;
- it lists the raw traces newest first.

**`app_v01.py`, the group chat.** Every user has a personal assistant
("MAL"). A message typed to it is handled in three steps:

- it is stripped and truncated to 120 characters plus `…`;
- it is posted to the shared board without the sender's name, which
  appears in a separate column;
- it is answered with a feedback text that previews the post with the
  name.

A summary line names the distinct senders of the last five posts.

## Modules

| file | module | contents |
|---|---|---|
| `text.dfy` | `Text` | `str.strip()` over Python's whitespace set, `s or default`, and `str(int)` with injectivity |
| `seqs.dfy` | `Seqs` | list comprehension with a filter; stable descending insertion sort with its order, permutation and stability proofs |
| `trace_records.dfy` | `TraceRecords` | the `Work` and `Trace` records, `cluster_key`, the trace and creator filters |
| `trace_dashboard.dfy` | `TraceDashboard` | the `setdefault` grouping loop (a method) and the pure specification of the dictionary it builds; ranking, cards and the dashboard |
| `trace_store.dfy` | `TraceStore` | the JSON store `{"works", "traces"}` as a class whose button handlers update it in place |
| `group_chat.dfy` | `GroupChat` | `mal_rewrite_for_group`, Python string order, `sorted(set(...))`, `mal_group_summary` |
| `group_session.dfy` | `GroupSession` | the session state (board, per-user logs, text box) as a class; initialisation and `send_to_mal` |

Dictionaries are modelled as a `map` plus a `seq` of keys in insertion
order. Strings are `seq<char>`, so lengths and slices count code points as
Python's do. Clock readings, uuids and the uploaded file's presence and
name are parameters. Timestamps are integer ticks.

## Model

| member | source | states |
|---|---|---|
| Text.IsSpace | app_v01.py:28 | Python's `str.isspace()` for one character, by code-point ranges: the set `strip()` removes |
| Text.IsSpaceListed | app_v01.py:28 | the ranges hold exactly the 29 listed code points: the Unicode White_Space characters and U+001C to U+001F |
| Text.LeadingSpace | app_v01.py:28 | the count of leading whitespace characters: all of them are whitespace, and the next one is not |
| Text.TrailingSpace | app_v01.py:28 | the count of trailing whitespace characters: all of them are whitespace, and the one before them is not |
| Text.Strip | app_v01.py:28 | `strip()` gives a contiguous infix of the input with no whitespace at either end; everything cut off on both sides is whitespace; the result is empty exactly when the input is all whitespace |
| Text.StripStripped | app_v01.py:89 | a string with nothing to strip is its own strip |
| Text.StripIdempotent | app_v01.py:28 | stripping twice is stripping once, so `send_to_mal`'s strip followed by the rewrite's strip changes nothing |
| Text.OrDefault | mal_trace_app.py:91 | `s or default` keeps a non-empty `s`, falls back to the default for an empty one, and is non-empty when the default is |
| Text.DecimalValue | mal_trace_app.py:49 | the number a digit string denotes, read most significant digit first: the reference the decimal forms are read back with |
| Text.NatToDecimal | mal_trace_app.py:49 | the decimal form of a natural is a non-empty digit string, a single digit exactly below 10, starting with `0` only for zero |
| Text.IntToDecimal | mal_trace_app.py:49 | the form of an int is a `-` exactly for negatives, then only digits |
| Text.NatToDecimalValue | mal_trace_app.py:49 | round trip: reading the digits of `n` back gives `n` |
| Text.IntToDecimalValue | mal_trace_app.py:49 | the digits after the sign denote the magnitude of the int, with no leading zero |
| Text.NatToDecimalInjective | mal_trace_app.py:49 | distinct naturals have distinct decimal forms, by the round trip |
| Text.IntToDecimalInjective | mal_trace_app.py:49 | distinct ints have distinct decimal forms |
| Seqs.Filter | mal_trace_app.py:186 | the result of a comprehension is no longer than its input, and holds only input elements that satisfy the condition |
| Seqs.FilterAppend | mal_trace_app.py:186 | filtering distributes over concatenation, so input order is kept |
| Seqs.FilterKeeps | mal_trace_app.py:186 | every input element satisfying the condition is kept |
| Seqs.FilterEmpty | mal_trace_app.py:180 | the comprehension is empty exactly when no element satisfies the condition |
| Seqs.InsertPos | mal_trace_app.py:200 | the insertion point follows exactly the leading elements with a larger key |
| Seqs.InsertDesc | mal_trace_app.py:200 | inserting into a non-increasing list keeps it non-increasing and adds exactly that element |
| Seqs.SortDesc | mal_trace_app.py:200 | `sorted(key=f, reverse=True)` is non-increasing in `f` and a permutation of its input |
| Seqs.SortDescMembers | mal_trace_app.py:200 | the sorted list has exactly the input's elements |
| Seqs.SortDescStable | mal_trace_app.py:200 | two output elements with equal keys come from input positions in the same order (the pairwise form the dashboard's tie lemma uses) |
| Seqs.InsertDescByKey | mal_trace_app.py:200 | inserting `x` puts it in front of every element with its key and leaves the elements of each other key as they were |
| Seqs.SortDescKeepsTies | mal_trace_app.py:200 | stability: for every key value, the output's elements with that key are exactly the input's, in the input's order |
| Seqs.PrefixNonIncreasing | mal_trace_app.py:200 | the `[:4]` prefix of a non-increasing list is non-increasing |
| TraceRecords.FromForm | mal_trace_app.py:147-150 | what the form's widgets can produce; such a trace has no `\|` in its word |
| TraceRecords.ClusterKey | mal_trace_app.py:47-49 | `f"{word}\|rv{reverb}"`; its layout and injectivity are the two lemmas below |
| TraceRecords.ClusterKeyLayout | mal_trace_app.py:47-49 | a key is the word, then `\|rv`, then `IntToDecimal(reverb)`, whose digits denote the reverb (`Text.IntToDecimalValue`), with a `-` exactly for a negative reverb |
| TraceRecords.ClusterKeyInjective | mal_trace_app.py:47-49 | for words without `\|`, two traces have the same key exactly when they have the same word and reverb |
| TraceRecords.ClusterKeyOnWords | mal_trace_app.py:14-49 | for words from the form's vocabulary, equal key exactly when equal (word, reverb) |
| TraceRecords.NewWork | mal_trace_app.py:84-95 | the stored work has the stripped title and note, a non-empty stripped creator (`Unknown` when blank), the upload path `data/<id>_<name>` and the given clock reading |
| TraceRecords.NewTrace | mal_trace_app.py:154-165 | the sent trace keeps the form's values, strips the memo, has a non-empty stripped responder (`Anonymous` when blank), and satisfies the widgets' ranges when its inputs do |
| TraceRecords.TracesOfWork | mal_trace_app.py:186 | the comprehension over stored traces: no longer than the store, only traces of that work |
| TraceRecords.TracesOfWorkExact | mal_trace_app.py:186 | a trace is on the dashboard's list exactly when it is stored with that work id |
| TraceRecords.TracesOfWorkAppend | mal_trace_app.py:166-186 | appending a trace appends it to its own work's list and to no other |
| TraceRecords.WorksByCreator | mal_trace_app.py:180 | the comprehension over works: no longer than the list, only the creator's works |
| TraceRecords.WorksForCreator | mal_trace_app.py:180 | the creator's works when there are any, else all works; never empty when a work exists |
| TraceDashboard.KeyOrder | mal_trace_app.py:190-192 | the dictionary's keys are distinct and are exactly the keys of the input traces |
| TraceDashboard.Members | mal_trace_app.py:190-192 | no group is longer than the input |
| TraceDashboard.MembersAppend | mal_trace_app.py:192 | one `setdefault(...).append(t)` extends the group of `t`'s key and no other |
| TraceDashboard.MembersExact | mal_trace_app.py:190-192 | partition: a trace is in the group of `k` exactly when it is an input trace with key `k` |
| TraceDashboard.MembersInInputOrder | mal_trace_app.py:190-192 | each group is the comprehension of the input traces with its key, in input order |
| TraceDashboard.MembersNonEmpty | mal_trace_app.py:190-192 | a key's group is non-empty exactly when the key is in the dictionary |
| TraceDashboard.GroupSizesSum | mal_trace_app.py:190-192 | the group sizes add up to the number of traces |
| TraceDashboard.FirstIndex | mal_trace_app.py:190-192 | the index of the first trace with a key: it carries the key, and no earlier trace does |
| TraceDashboard.KeyOrderByFirstOccurrence | mal_trace_app.py:190-192 | dictionary order is first-occurrence order |
| TraceDashboard.GroupByKey | mal_trace_app.py:190-192 | the loop builds a dictionary whose keys, in insertion order, are `KeyOrder`, and whose value under each key is that key's group |
| TraceDashboard.Groups | mal_trace_app.py:200 | `clusters.items()`: one entry per key in dictionary order, holding that key's group |
| TraceDashboard.Items | mal_trace_app.py:200 | the items of a dictionary, in key order |
| TraceDashboard.ItemsOfGrouping | mal_trace_app.py:190-200 | the items of the dictionary the loop builds are `Groups` |
| TraceDashboard.KeyOrderEmpty | mal_trace_app.py:195-197 | the dictionary is empty exactly when the work has no traces |
| TraceDashboard.TopGroups | mal_trace_app.py:200 | at most 4 ranked groups, `min(4, groups)` of them, in non-increasing size, each one of the groups |
| TraceDashboard.TopGroupsAreLargest | mal_trace_app.py:200 | a group left out of the top is no larger than any group in it |
| TraceDashboard.SumDwell | mal_trace_app.py:206 | the total dwell of a group; non-negative when every dwell time is |
| TraceDashboard.AvgDwell | mal_trace_app.py:206 | the average taken `len(items)` times gives the total |
| TraceDashboard.AvgDwellBounds | mal_trace_app.py:206 | a group's average dwell lies between its smallest and largest dwell time |
| TraceDashboard.CardOf | mal_trace_app.py:204-209 | a card shows its group's key, its size (positive), the group's average dwell and its first `min(3, size)` traces |
| TraceDashboard.Cards | mal_trace_app.py:202-209 | one card per ranked group, in rank order |
| TraceDashboard.TopGroupsOfTraces | mal_trace_app.py:190-200 | every ranked group is a dictionary entry whose value is that key's non-empty group |
| TraceDashboard.TopCards | mal_trace_app.py:200-209 | card `m` is the card of the `m`-th ranked group, which is a key of the work with its full, non-empty group |
| TraceDashboard.DashboardOf | mal_trace_app.py:195-214 | the notice exactly when there are no traces; otherwise the top cards, and raw traces newest first as a permutation of the work's traces |
| TraceDashboard.DashboardCardCount | mal_trace_app.py:200-201 | there are `min(4, number of groups)` cards |
| TraceDashboard.DashboardCardsOrdered | mal_trace_app.py:200-205 | card counts are non-increasing |
| TraceDashboard.DashboardCardContents | mal_trace_app.py:202-209 | each card's key is a key of the work; its count is that key's full group size; its examples are the group's first `min(3, count)` traces |
| TraceDashboard.CardIsRanked | mal_trace_app.py:200-205 | card `i` shows the key and size of the `i`-th group in sorted order |
| TraceDashboard.RankedTiesByFirstOccurrence | mal_trace_app.py:190-200 | equal-count cards appear in the order their keys first occur among the traces |
| TraceDashboard.HiddenClustersNoLarger | mal_trace_app.py:200 | a cluster without a card is no larger than any card shown |
| TraceStore.TraceDb.constructor | mal_trace_app.py:20 | the empty store `{"works": {}, "traces": []}` |
| TraceStore.TraceDb.WorkList | mal_trace_app.py:65 | `db["works"].values()` in insertion order: exactly the stored works |
| TraceStore.TraceDb.DashboardWorks | mal_trace_app.py:175-180 | the works offered are exactly the creator's stored works when there are any, otherwise exactly all stored works; there is one whenever the store has a work |
| TraceStore.TraceDb.Upload | mal_trace_app.py:80-96 | refused exactly without audio or with a blank title; then the work is stored under its id (kept in insertion order if new), and traces are untouched |
| TraceStore.TraceDb.SendTrace | mal_trace_app.py:153-166 | exactly one record is appended; works and earlier traces are unchanged; only the sent work's trace list grows |
| TraceStore.TraceDb.Dashboard | mal_trace_app.py:186-214 | groups the work's traces with the loop and returns the dashboard `DashboardOf` specifies |
| GroupChat.RewriteForGroup | app_v01.py:22-44 | the group body is the stripped text if it has at most 120 characters, else its first 120 plus `…`; it is at most 121 long, stripped, and empty exactly when the text is blank; the feedback is exactly the fixed head, then `user：body`, then the fixed tail |
| GroupChat.Preview | app_v01.py:36 | `f"{user}：{body}"`: the name, the full-width colon, then the body, nothing else |
| GroupChat.GroupBodyNameFree | app_v01.py:22-33 | the group body depends neither on the sender nor on the board |
| GroupChat.RewriteIdempotent | app_v01.py:28-33 | rewriting a group body again gives it back unchanged |
| GroupChat.LexLessIrreflexive | app_v01.py:57 | Python string `<` is irreflexive |
| GroupChat.LexLessTransitive | app_v01.py:57 | Python string `<` is transitive |
| GroupChat.LexLessTotal | app_v01.py:57 | distinct strings are ordered one way or the other |
| GroupChat.InsertName | app_v01.py:57 | adding a name to an ascending duplicate-free list keeps it so, and adds exactly that name |
| GroupChat.SortedNames | app_v01.py:57 | `sorted(set(names))` is strictly ascending and holds exactly the given names |
| GroupChat.StrictlyAscendingUnique | app_v01.py:57 | a strictly ascending list is determined by its elements |
| GroupChat.Recent | app_v01.py:56 | `logs[-5:]` is the last `min(5, len)` messages |
| GroupChat.Senders | app_v01.py:57 | one sender per message; a name is listed exactly when it sent one of the messages |
| GroupChat.InvolvedUsers | app_v01.py:56-57 | ascending, duplicate-free, exactly the senders of the last five messages, non-empty on a non-empty board |
| GroupChat.GroupSummary | app_v01.py:47-58 | the fixed notice exactly when the board is empty |
| GroupChat.Join | app_v01.py:58 | `", ".join(names)`: the names' total length plus one separator between each two, starting with the first name |
| GroupChat.JoinLayout | app_v01.py:58 | each name sits at its offset (the earlier names and separators before it) and one separator follows every name but the last, which with the length fixes the joined string |
| GroupChat.SummaryListsRecentSenders | app_v01.py:56-58 | a non-empty board's summary is the fixed head, then the ascending, duplicate-free senders of the last five messages joined by `, `, then the fixed tail |
| GroupSession.BoardAppend | app_v01.py:106-108 | posting a rewritten body keeps the board well formed |
| GroupSession.StateAppend | app_v01.py:94-113 | logging a stripped text with its feedback keeps a user's logs paired |
| GroupSession.Session.constructor | app_v01.py:9-19 | empty board, empty logs for each of the three users, empty text box |
| GroupSession.Session.EditInput | app_v01.py:119-123 | typing sets the text box and nothing else |
| GroupSession.Session.Deliver | app_v01.py:93-116 | on a stripped non-blank text: the text is logged; its rewrite is posted under the sender's name; the feedback is logged; the box is cleared; no other user's state changes |
| GroupSession.Session.SendToMal | app_v01.py:88-116 | a blank box changes nothing, not even the box. Otherwise: the stripped text is logged; the rewrite is posted under the sender's name; its feedback is logged; the box is cleared; no other user's state changes |

## Left out

- Rendering, widgets, page routing, columns and `st.stop` are left out. Each page becomes a method or function of the store or session, and the model keeps what those return.
- `load_db`/`save_db` file I/O, the audio write at upload and the audio read on the work page are left out. The store starts as the empty default `load_db` returns when there is no file.
- `uuid.uuid4()`, `time.time()` and `datetime.now()` are parameters. `created_at` is an integer tick, so the raw-trace sort is the same stable sort as the ranking.
- The dwell timer of the work page (mal_trace_app.py:120-142) is wall-clock state. The dwell value is a parameter of `SendTrace`.
- Floats are modelled as `real`, with no rounding. The `.1f`/`.2f` formatting on the cards and in the raw list is not modelled; the average dwell is a real quotient.
- The title-to-id dictionary and the work selectbox (mal_trace_app.py:181-184) are left out. `Dashboard` takes the selected work id directly, so the collapse of two works with the same title onto one entry is not modelled.
- The `if not db["works"]` guards of the work and dashboard pages are left out. On the work page the selectbox's choice becomes `SendTrace`'s requirement that the work id is stored.
- The Home page listing shows `WorkList`; its text rendering is left out.
- The success and error messages of the Upload button are display only and are left out.
- The board rendering with `%H:%M:%S` timestamps and the last-feedback display (app_v01.py:73-78, 128-135) are left out: they only render the modelled state.
- `mal_rewrite_for_group`'s `group_context` argument is unused in the source, and the model accepts it and ignores it likewise.
- The code has no distance-based clustering, no hook-point histogram and no one-line report. The cluster key `word|rv<reverb>` is the only grouping there is.
- Seqs.SortDescStable: the pairwise form fixes the order of equal-key elements only when the input repeats no element; full stability is stated by `Seqs.SortDescKeepsTies`, and the dashboard's groups have distinct keys.
- Streamlit's rerun and callback scheduling is not modelled; each call runs to completion.
