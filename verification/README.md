# MyYouTubeDownloader helpers in Dafny

This project models the two helper classes of MyYouTubeDownloader, a console program that downloads YouTube videos. The model is written in Dafny, and the proofs are about that model.

- **`FileNameHelper.SanitizeYouTubeTitle`** turns a video title into a file name. It deletes every character outside ASCII letters, ASCII digits and white space, then trims white space from both ends. The model is `FileNames.Sanitize`, built from:
  - `RemoveDisallowed`, the regex replace;
  - `TrimStart`, `TrimEnd` and `Trim`, the .NET `String.Trim`.
- **`FileNameHelper.EnsureUniqueFileName`** sanitises the name and joins it to the directory. While a file exists at that path, it tries `"{stem} copy{N}{extension}"` for N = 1, 2, …. The model is the method `FileNames.EnsureUniqueFileName`, with the same `while` loop:
  - The filesystem is a finite `set<string>` of existing paths, passed as a parameter, and `File.Exists(p)` is `p in files`.
  - The loop is proved to stop, because there are only finitely many files and every probe is a different path.
  - The result is specified by `FreeStep`: the least copy number whose path is free.
  - The `System.IO.Path` calls it uses are modelled in the module `Paths`, with .NET's Unix behaviour.
- **`YoutubeHelper.ParseVideoId`** runs one case-insensitive regular expression over a URL and returns the 11-character capture, or "" when nothing matches. The model `VideoIds.ParseVideoId` is a hand-written scanner:
  - It tries the alternatives in the order the regex engine does.
  - `(?:.*&)?` is tried before the bare `v=`.
  - A greedy `.*` backs off from the end of the line.
  - The leftmost match wins.
  - The pattern after "youtu" is split into four stages (`Stage`): "youtu", the rest of the host, the path after "be.com/", and the query after "watch?".
  - The declarative predicates `Matches` and `MatchAt` say what a match is, with no search order. The scanner (`CaptureFrom`, `LocateIn`) is proved against them: `CaptureFromSpec`, `LocateInSound`, `LocateInLeftmost`, `ParseVideoIdSound` and `ParseVideoIdComplete`.
  - The optional `(?:https?:\/\/)?(?:www\.)?` groups contain no 'y'. So the leftmost match of the whole pattern captures the same id as the leftmost "youtu" from which the rest matches. The scanner therefore starts at "youtu", and `IgnoresPrefix` shows that a prefix without 'y' changes nothing.

Modules:
- `Options`: the `Option` type;
- `Chars`: .NET white space and ASCII case folding;
- `Decimal`: the decimal rendering of the copy number;
- `Paths`;
- `FileNames`;
- `VideoIds`.

### Behaviour worth knowing

- **No extension in the probed name.** `EnsureUniqueFileName` sanitises its argument first (FileNameHelper.cs:23), and sanitising deletes every '.' (FileNameHelper.cs:10). So the probed name never has an extension, and the extension handling at FileNameHelper.cs:32-34 never applies:
  - `SanitizeDropsDot` proves `"Song.mp4"` becomes `"Songmp4"`, so a second copy is `"Songmp4 copy1"`, not `"Song copy1.mp4"`;
  - `SanitizedIsPlain` and `CandidateOfPlain` show the suffix always goes at the end of the whole name.
  The only caller appends ".mp4" after this function returns (Program.cs:82). So a probe looks for `dir/Title`, while the file actually written is `dir/Title.mp4`. That caller is not part of this model.
- **No bound on the copy number.** The loop has no bound and no failure path, and neither does the model. Termination is proved from the finiteness of the file set.

Also visible in the model: for a `watch?` URL, the greedy `.*&` picks the last `&v=` that is followed by an id. So `…watch?v=AAAAAAAAAAA&v=BBBBBBBBBBB` gives the second id. `WatchParamsLink` and `LastAmpParam` state this.

## Model

| member | source | states |
|---|---|---|
| FileNames.RemoveDisallowed | FileNameHelper.cs:10-13 | The result is no longer than the title |
| FileNames.RemoveDisallowedAllKept | FileNameHelper.cs:10-13 | Every character left is an ASCII letter, an ASCII digit or white space |
| FileNames.RemoveDisallowedCounts | FileNameHelper.cs:10-13 | Each allowed character occurs in the result as often as in the input; each disallowed character never occurs |
| FileNames.RemoveDisallowedAppend | FileNameHelper.cs:13 | Deleting distributes over concatenation, so the kept characters keep their order |
| FileNames.RemoveDisallowedKeepsClean | FileNameHelper.cs:13 | A string made only of allowed characters is returned unchanged, interior white space included |
| FileNames.RemoveDisallowedDrops | FileNameHelper.cs:10-13 | A single disallowed character is replaced by nothing |
| FileNames.RemoveDisallowedStep | FileNameHelper.cs:13 | A clean stretch followed by a disallowed character keeps the stretch and drops the character |
| FileNames.TrimStart | FileNameHelper.cs:16 | The result is a suffix of the input; the dropped front is all white space; the result does not start with white space |
| FileNames.TrimEnd | FileNameHelper.cs:16 | The result is a prefix of the input; the dropped back is all white space; the result does not end with white space |
| FileNames.Trim | FileNameHelper.cs:16 | The result is a contiguous stretch of the input, the cut-off ends are all white space, and the result neither starts nor ends with white space |
| FileNames.TrimKeepsTrimmed | FileNameHelper.cs:16 | A string whose ends are not white space is left unchanged |
| FileNames.Sanitize | FileNameHelper.cs:7-19 | The result is never longer than the title, every character in it is allowed, and it has no white space at either end |
| FileNames.SanitizeTrimsFiltered | FileNameHelper.cs:13-16 | The result is the filtered title with white-space ends cut off |
| FileNames.SanitizeIdempotent | FileNameHelper.cs:7-19 | Sanitising a sanitised title changes nothing, so the second sanitising at line 23 is harmless |
| FileNames.SanitizeFixedPoints | FileNameHelper.cs:7-19 | A title is returned unchanged exactly when it is all allowed characters and has no white space at either end |
| FileNames.SanitizedIsPlain | FileNameHelper.cs:10 | A sanitised name contains no '.' and no directory separator |
| FileNames.SanitizeEmpty | FileNameHelper.cs:7-19 | The empty title sanitises to the empty name |
| FileNames.SanitizeDropsPunctuation | FileNameHelper.cs:13-16 | Three clean stretches around '-', '(' and ')' come out joined without the punctuation, when the first stretch does not start with white space and the last does not end with it |
| FileNames.SanitizeExample | FileNameHelper.cs:13-16 | "Rick Astley - Never Gonna Give You Up (Official Video)" becomes "Rick Astley  Never Gonna Give You Up Official Video" |
| FileNames.SanitizeDropsDot | FileNameHelper.cs:10-13 | "Song.mp4" becomes "Songmp4": a name passed in loses its extension |
| FileNames.ProbesBoundedByFiles | FileNameHelper.cs:30-36 | If the first n distinct probes all hit existing files, there are at least n files; this makes the loop finite |
| FileNames.FirstMissFrom | FileNameHelper.cs:30-36 | For distinct probes, searching from a step n before which every step hits, there is a least step at or after n that misses, and every earlier step hits |
| FileNames.CandidateOfPlain | FileNameHelper.cs:32-34 | For a name with no '.' and no separator, probe n >= 1 is directory + name + " copy" + decimal n |
| FileNames.CandidatesDistinct | FileNameHelper.cs:24-34 | For a name with no '.' and no separator, two different probe numbers never give the same path |
| FileNames.ProbeInjective | FileNameHelper.cs:24-34 | The probe sequence of a sanitised name has no repeats |
| FileNames.FreeStep | FileNameHelper.cs:26-36 | The chosen copy number gives a path that is not in the file set, and every smaller number gives a path that is |
| FileNames.EnsureUniqueFileName | FileNameHelper.cs:21-39 | The returned path is not in the file set; it is the probe with the least free copy number; and a free plain path is returned unchanged |
| FileNames.FreeStepIsLeast | FileNameHelper.cs:30-36 | A step that misses after only hits is the chosen copy number: the choice is unique |
| FileNames.FreeStepWhenFree | FileNameHelper.cs:24-30 | When the plain sanitised path is free, no suffix is added |
| FileNames.FreeStepWhenTaken | FileNameHelper.cs:30-36 | When the plain path exists, the result is "{name} copyN" for the least N >= 1 that is free, and every smaller copy exists |
| FileNames.CopiesOfTaken | FileNameHelper.cs:32-35 | Before a first free copy number n >= 1, every copy path "{name} copyI" with 1 <= I < n exists, and copy n is the path "{name} copyN" |
| Paths.Combine | FileNameHelper.cs:24 | An empty part gives the other part; joining a name that is not rooted keeps the directory as a prefix and the name as a suffix |
| Paths.CombineInjective | FileNameHelper.cs:34 | Within one directory, different names that are not rooted give different paths |
| Paths.Extension | FileNameHelper.cs:33 | The extension is empty, or a suffix of the path of at least two characters that starts with '.' |
| Paths.ExtensionSpec | FileNameHelper.cs:33 | A non-empty extension starts at the last '.' of the last path component; the extension is empty exactly when that component has no '.' or the path ends in '.' |
| Paths.FileName | FileNameHelper.cs:32 | The file name is a suffix of the path with no separator in it |
| Paths.FileNameSpec | FileNameHelper.cs:32 | The file name is everything after the last separator: a shorter name is preceded by a separator |
| Paths.StemSpec | FileNameHelper.cs:32 | The stem is a prefix of the file name; it is followed by '.' when shorter; it is the whole file name when that has no '.' |
| Paths.PlainNameParts | FileNameHelper.cs:32-33 | A name with no '.' and no separator has an empty extension and is its own stem |
| Decimal.NatToString | FileNameHelper.cs:34 | The copy number is written with at least one digit, all decimal, and no leading zero |
| Decimal.ParseNatToString | FileNameHelper.cs:34 | Reading the written digits back gives the number |
| Decimal.NatToStringInjective | FileNameHelper.cs:34 | Different copy numbers are written differently |
| Chars.Lower | YouTubeHelper.cs:14 | Case folding gives a lower-case letter for every ASCII letter and leaves other characters alone |
| Chars.LowerSpec | YouTubeHelper.cs:14 | Each upper-case ASCII letter folds to its own lower-case letter (code point plus 32), and two characters fold alike exactly when they are equal or the same ASCII letter in the other case |
| VideoIds.ParseVideoId | YouTubeHelper.cs:12-17 | The result is "" or exactly 11 characters, none of which is '"', '&', '?', '/' or white space |
| VideoIds.RunEndSpec | YouTubeHelper.cs:14 | `.*` reaches exactly to the next line feed or to the end of the input |
| VideoIds.LastVParamSpec | YouTubeHelper.cs:14 | The greedy `.*[?&]v=` finds the rightmost marker followed by an id, and finds one whenever there is one |
| VideoIds.VParamSearchSpec | YouTubeHelper.cs:14 | From the start of the text, `.*[?&]v=` followed by an id is found exactly when it exists on the first line, and what is found is such a marker |
| VideoIds.CaptureFromSpec | YouTubeHelper.cs:14 | Each stage of the pattern reports a match when it reports anything, and reports something whenever a match exists |
| VideoIds.YoutuSpec | YouTubeHelper.cs:14 | After "youtu", what is found is a match, and when nothing is found there is no match |
| VideoIds.HostSpec | YouTubeHelper.cs:14 | After ".be/" or "be.com/", what is found is a match, and when nothing is found there is no match |
| VideoIds.PathSpec | YouTubeHelper.cs:14 | The path alternatives, tried in pattern order, find a match when there is one, and only then |
| VideoIds.QuerySpec | YouTubeHelper.cs:14 | After "watch?", the `.*&` group tried before the bare "v=" finds a match when there is one, and only then |
| VideoIds.MatchAtTail | YouTubeHelper.cs:15 | Dropping the first character moves every match that starts after it one place to the left |
| VideoIds.LocateInSound | YouTubeHelper.cs:14-15 | What the scan reports is a match at that place |
| VideoIds.LocateInLeftmost | YouTubeHelper.cs:14-15 | Every match is found, at its own start or further left |
| VideoIds.NoMatchAtStart | YouTubeHelper.cs:14-15 | Where the scanner finds nothing at the start, no match starts there |
| VideoIds.MatchesHasId | YouTubeHelper.cs:14 | Every match of every stage has 11 id characters at the captured position |
| VideoIds.ScanCapturesId | YouTubeHelper.cs:14-16 | What the scan reports is a match, and the 11 characters at its id position are the result |
| VideoIds.ParseVideoIdSound | YouTubeHelper.cs:14-16 | A non-empty result is the 11 characters right after one of the markers, in a match that starts furthest left |
| VideoIds.ParseVideoIdComplete | YouTubeHelper.cs:14-16 | Whenever the pattern matches anywhere, an 11-character id is returned |
| VideoIds.NoYoutuNoId | YouTubeHelper.cs:14-16 | Without a case-insensitive "youtu", the result is "" |
| VideoIds.LocateSkips | YouTubeHelper.cs:14-15 | The scan passes over leading characters that are not 'y' and finds what it finds in the rest, moved by their number |
| VideoIds.IgnoresPrefix | YouTubeHelper.cs:14 | A prefix without 'y' (such as "https://", "http://www.") does not change the result |
| VideoIds.MatchNeedsRoom | YouTubeHelper.cs:14 | Every match has at least "youtu.be/" before the id and all 11 id characters |
| VideoIds.TooShortNoId | YouTubeHelper.cs:14-16 | A URL shorter than 20 characters gives "" |
| VideoIds.NoYNoId | YouTubeHelper.cs:14-16 | A URL with no 'y' in either case gives "" |
| VideoIds.ParseAtStart | YouTubeHelper.cs:14-16 | When the pattern matches at the very start, the result is the 11 characters at the captured position |
| VideoIds.DomainStep | YouTubeHelper.cs:14 | At a "youtube.com/" in any case, the capture of the pattern there is that of the path alternatives after it |
| VideoIds.WatchStep | YouTubeHelper.cs:14 | At a "youtube.com/watch?" in any case, when the query after it has an id, the capture of the pattern there is that id |
| VideoIds.ShortLink | YouTubeHelper.cs:14-16 | "youtu.be/", in any case and after any prefix without 'y', gives the 11 characters after the slash when they are all id characters, whatever follows |
| VideoIds.ShortLinkTooShort | YouTubeHelper.cs:14-16 | "youtu.be/" in any case, after a prefix without 'y', followed by fewer than 11 characters and nothing else, gives "" |
| VideoIds.ShortLinkCutShort | YouTubeHelper.cs:14-16 | "youtu.be/" in any case, after a prefix without 'y', followed by fewer than 11 characters and then a character outside the id class, gives "", however much text follows, when nothing after the link is a 'y' |
| VideoIds.ShortHostFails | YouTubeHelper.cs:14 | After "youtu.be/", a character outside the id class within the first 11 places means the pattern does not match there |
| VideoIds.PathCapture | YouTubeHelper.cs:14 | After "be.com/", the path "embed/", "v/" or "shorts/" followed by an id gives that id |
| VideoIds.PathLink | YouTubeHelper.cs:14-16 | "youtube.com/" followed by "embed/", "v/" or "shorts/", in any case and after any prefix without 'y', gives the 11 characters after the slash when they are all id characters, whatever follows |
| VideoIds.BareVCapture | YouTubeHelper.cs:14 | A query starting "v=" and an id gives that id when no later "&v=" is followed by an id |
| VideoIds.WatchLink | YouTubeHelper.cs:14-16 | "youtube.com/watch?v=" in any case, after a prefix without 'y', gives the 11 characters after "v=" when they are all id characters and no later "&v=" is followed by an id |
| VideoIds.LastAmpParam | YouTubeHelper.cs:14 | The greedy `.*&v=` takes the last "&v=" on the first line that is followed by an id |
| VideoIds.WatchParamsCapture | YouTubeHelper.cs:14 | After "watch?", parameters on the same line, then "&v=" and an id give that id, when no later "&v=" is followed by an id |
| VideoIds.WatchParamsLink | YouTubeHelper.cs:14-16 | "youtube.com/watch?" in any case, after a prefix without 'y', then parameters with no line feed, then "&v=" and 11 id characters, gives those 11 characters when no later "&v=" is followed by an id |
| VideoIds.WatchExample | YouTubeHelper.cs:14-16 | "https://www.youtube.com/watch?v=dQw4w9WgXcQ" gives "dQw4w9WgXcQ" |
| VideoIds.LaterParamExample | YouTubeHelper.cs:14-16 | "https://www.youtube.com/watch?v=dQw4w9WgXcQ&list=PL123" gives "dQw4w9WgXcQ": a later parameter that is not "v=" is ignored |
| VideoIds.ShortLinkExample | YouTubeHelper.cs:14-16 | "https://youtu.be/dQw4w9WgXcQ" gives "dQw4w9WgXcQ" |
| VideoIds.UpperCaseExample | YouTubeHelper.cs:14-16 | "HTTPS://YOUTU.BE/dQw4w9WgXcQ" gives "dQw4w9WgXcQ" |
| VideoIds.ShortsExample | YouTubeHelper.cs:14-16 | "youtube.com/shorts/dQw4w9WgXcQ" gives "dQw4w9WgXcQ" |
| VideoIds.EmbedExample | YouTubeHelper.cs:14-16 | "youtube.com/embed/dQw4w9WgXcQ?t=5" gives "dQw4w9WgXcQ" |
| VideoIds.ParamsBeforeExample | YouTubeHelper.cs:14-16 | "youtube.com/watch?list=PL1&v=dQw4w9WgXcQ" gives "dQw4w9WgXcQ" |
| VideoIds.NotAUrlExample | YouTubeHelper.cs:14-16 | "not a url" gives "" |
| VideoIds.TooShortExample | YouTubeHelper.cs:14-16 | "https://youtu.be/abc" gives "" |
| VideoIds.CutShortExample | YouTubeHelper.cs:14-16 | "https://youtu.be/abc?t=1234567890" gives "" |

## Left out

- Program.cs is not part of this model. That covers the settings file, the prompts, the YouTube client calls, downloading and muxing, and the caller that appends ".mp4" to the unique path.
- The filesystem is a set of path strings, read at the moment of the call. The race between probing a path and later creating the file is not modelled. Neither is `File.Exists` being false for a directory of that name.
- EnsureUniqueFileName: `copyIndex` is an unbounded natural number, not a 32-bit `int`. The wrap-around after 2^31 - 1 probes is not modelled.
- `Path.Combine`, `Path.GetExtension`, `Path.GetFileName` and `Path.GetFileNameWithoutExtension` follow the Unix behaviour of .NET: '/' is the only separator. Windows drive letters and '\\' separators are not modelled. Neither is the invalid-path-character exception of older .NET versions.
- White space is the fixed set of characters .NET treats as white space (U+0009–U+000D, U+0085, and categories Zs, Zl and Zp). It is written out for the Unicode version .NET ships; it is not read from a Unicode database.
- VideoIds.ParseVideoId: the case-insensitive match folds ASCII letters only. .NET's `RegexOptions.IgnoreCase` also treats some non-ASCII characters as equal to letters of the pattern. For example, under the case-equivalence table of .NET 7 and later, U+017F 'ſ' matches 's'. So "youtube.com/ſhorts/" followed by an id matches in .NET, while the model gives "". The model does not capture any such non-ASCII equivalence.
- VideoIds.ParseVideoId: a .NET `string` is UTF-16, and the model works on Dafny `char`s. A surrogate pair counts as one character here, but as two in .NET when it falls inside the 11-character id.
- The regex match timeout and `RegexMatchTimeoutException` are not modelled. A null URL or title is not modelled either: the model's strings always exist.
