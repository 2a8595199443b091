/**
 * UpdateAWSCredentialsFile from internal/cloud-providers/aws/aws.go: the
 * credentials file is read line by line into profile -> lines, the incoming
 * credentials overwrite their profiles, and every profile is written back
 * in the order Go's map iteration happens to give.
 */
module AwsCredentialsFile {
  import opened Wrappers
  import opened Errors
  import opened Text
  import opened AwsTypes

  /** What reading ~/.aws/credentials gave: its text, "does not exist", or another error. */
  datatype FileRead = Contents(text: string) | NotFound | ReadFailed(message: string)

  predicate IsBracket(c: char)
  {
    c == '[' || c == ']'
  }

  /** A trimmed line that starts with '[' and ends with ']' opens a profile. */
  predicate IsHeader(line: string)
  {
    HasPrefix(line, "[") && HasSuffix(line, "]")
  }

  /** strings.Trim(line, "[]"): the header without its surrounding brackets. */
  function SectionName(line: string): string
  {
    Trim(line, IsBracket)
  }

  /**
   * A raw line as the reading loop sees it, trimmed: a header with the
   * profile name it opens, or any other line with its trimmed text.
   */
  datatype Line = Line(opens: bool, text: string)

  function Classify(raw: string): Line
  {
    var line := TrimSpace(raw);
    if IsHeader(line) then Line(true, SectionName(line)) else Line(false, line)
  }

  function ClassifyAll(raws: seq<string>): (r: seq<Line>)
    ensures |r| == |raws|
    decreases |raws|
  {
    if raws == [] then [] else ClassifyAll(raws[..|raws| - 1]) + [Classify(raws[|raws| - 1])]
  }

  /** The reading loop's variables: the current profile and the profile -> lines map. */
  datatype Reader = Reader(current: string, entries: map<string, seq<string>>)

  const Start: Reader := Reader("", map[])

  /** The lines of profile `p` so far; Go reads a missing key as an empty slice. */
  function LinesOf(entries: map<string, seq<string>>, p: string): seq<string>
  {
    if p in entries then entries[p] else []
  }

  /** One pass of the reading loop: a header starts (or restarts) a profile, other lines join the current one. */
  function ReadLine(st: Reader, line: Line): Reader
  {
    if line.opens then
      Reader(line.text, st.entries[line.text := []])
    else if st.current != "" then
      Reader(st.current, st.entries[st.current := LinesOf(st.entries, st.current) + [line.text]])
    else
      st
  }

  /** The reading loop over `lines`, from state `st`. */
  function ReadFrom(st: Reader, lines: seq<Line>): Reader
    decreases |lines|
  {
    if lines == [] then st
    else ReadLine(ReadFrom(st, lines[..|lines| - 1]), lines[|lines| - 1])
  }

  /** The profiles of a file text, as the first loop builds them; the reference for the method ReadProfileEntries. */
  function ReadProfiles(text: string): map<string, seq<string>>
  {
    ReadFrom(Start, ClassifyAll(Split(text, "\n"))).entries
  }

  /** The keys of the credential lines, each with its '='. */
  const AccessKeyIdKey: string := "aws_access_key_id="
  const SecretAccessKeyKey: string := "aws_secret_access_key="
  const ExpirationKey: string := "expiration="
  const SessionTokenKey: string := "aws_session_token="

  /** The lines written for one set of credentials; the token line only when there is a token. */
  function CredentialLines(e: AwsCredentialsEntry): seq<string>
  {
    [AccessKeyIdKey + e.accessKeyId, SecretAccessKeyKey + e.secretAccessKey, ExpirationKey + e.expiration]
    + (if e.sessionToken != "" then [SessionTokenKey + e.sessionToken] else [])
  }

  /** The second loop's result: every incoming profile replaced, every other one kept. */
  function Merged(profiles: map<string, seq<string>>, credentials: map<string, AwsCredentialsEntry>)
    : map<string, seq<string>>
  {
    map p | p in profiles.Keys + credentials.Keys ::
      if p in credentials then CredentialLines(credentials[p]) else profiles[p]
  }

  /** `order` lists every profile of `m` exactly once: one possible map iteration order. */
  ghost predicate IsOrderOf(order: seq<string>, m: map<string, seq<string>>)
  {
    && (forall i :: 0 <= i < |order| ==> order[i] in m)
    && (forall p :: p in m ==> p in order)
    && (forall i, j :: 0 <= i < j < |order| ==> order[i] != order[j])
  }

  /** The lines written for the profiles of `order`: a "[name]" header, then its lines. */
  function RenderedLines(m: map<string, seq<string>>, order: seq<string>): seq<string>
    requires forall i :: 0 <= i < |order| ==> order[i] in m
    decreases |order|
  {
    if order == [] then []
    else
      var p := order[|order| - 1];
      RenderedLines(m, order[..|order| - 1]) + (["[" + p + "]"] + m[p])
  }

  /** What the strings.Builder holds: every line followed by a newline. */
  function FileText(lines: seq<string>): string
  {
    Terminated(lines, "\n")
  }

  /** The file text written back when the profiles come out in `order`. */
  function RenderText(m: map<string, seq<string>>, order: seq<string>): string
    requires forall i :: 0 <= i < |order| ==> order[i] in m
  {
    FileText(RenderedLines(m, order))
  }

  /** The first loop: read the existing profiles and their entries. */
  method ReadProfileEntries(fileContent: string) returns (profileEntries: map<string, seq<string>>)
    ensures profileEntries == ReadProfiles(fileContent)
  {
    var lines := Split(fileContent, "\n");
    profileEntries := ReadLines(lines);
  }

  /** The reading loop over the raw lines: headers open profiles, other lines join the current one. */
  method ReadLines(lines: seq<string>) returns (profileEntries: map<string, seq<string>>)
    ensures profileEntries == ReadFrom(Start, ClassifyAll(lines)).entries
  {
    profileEntries := map[];
    var currentProfile := "";
    var i := 0;
    assert lines[..0] == [];
    while i < |lines|
      invariant 0 <= i <= |lines|
      invariant ReadFrom(Start, ClassifyAll(lines[..i])) == Reader(currentProfile, profileEntries)
    {
      ReadNext(lines, i, currentProfile, profileEntries);
      var line := TrimSpace(lines[i]);
      if IsHeader(line) {
        currentProfile := SectionName(line);
        profileEntries := profileEntries[currentProfile := []];
      } else if currentProfile != "" {
        profileEntries := profileEntries[currentProfile := LinesOf(profileEntries, currentProfile) + [line]];
      }
      i := i + 1;
    }
    assert lines[..i] == lines;
  }

  /** One more raw line read: a header opens its profile, another line joins the current one. */
  lemma ReadNext(raws: seq<string>, i: nat, current: string, entries: map<string, seq<string>>)
    requires i < |raws| && ReadFrom(Start, ClassifyAll(raws[..i])) == Reader(current, entries)
    ensures var line := TrimSpace(raws[i]);
      ReadFrom(Start, ClassifyAll(raws[..i + 1])) ==
        if IsHeader(line) then Reader(SectionName(line), entries[SectionName(line) := []])
        else if current != "" then Reader(current, entries[current := LinesOf(entries, current) + [line]])
        else Reader(current, entries)
  {
    assert raws[..i + 1][..i] == raws[..i];
    ReadFromLast(Start, ClassifyAll(raws[..i]), Classify(raws[i]));
  }

  /** The second loop: update or insert the given credentials, in whatever order the map yields them. */
  method MergeCredentials(parsed: map<string, seq<string>>, credentials: map<string, AwsCredentialsEntry>)
    returns (profileEntries: map<string, seq<string>>)
    ensures profileEntries == Merged(parsed, credentials)
    ensures profileEntries.Keys == parsed.Keys + credentials.Keys
    ensures forall p :: p in credentials ==> profileEntries[p] == CredentialLines(credentials[p])
    ensures forall p :: p in parsed && p !in credentials ==> profileEntries[p] == parsed[p]
  {
    profileEntries := parsed;
    var pending := credentials.Keys;
    MergedNothing(parsed, credentials);
    while pending != {}
      invariant pending <= credentials.Keys
      invariant profileEntries == Merged(parsed, credentials - pending)
      decreases pending
    {
      var profile :| profile in pending;
      MergedOneMore(parsed, credentials, pending, profile);
      profileEntries := profileEntries[profile := CredentialLines(credentials[profile])];
      pending := pending - {profile};
    }
    assert credentials - {} == credentials;
    MergedContents(parsed, credentials);
  }

  /** Before any credentials are merged, the profiles are those read. */
  lemma MergedNothing(parsed: map<string, seq<string>>, credentials: map<string, AwsCredentialsEntry>)
    ensures Merged(parsed, credentials - credentials.Keys) == parsed
  {
  }

  /** Merging one more set of credentials overwrites (or adds) its profile. */
  lemma MergedOneMore(parsed: map<string, seq<string>>, credentials: map<string, AwsCredentialsEntry>,
                      pending: set<string>, profile: string)
    requires profile in pending && pending <= credentials.Keys
    ensures Merged(parsed, credentials - (pending - {profile}))
      == Merged(parsed, credentials - pending)[profile := CredentialLines(credentials[profile])]
  {
  }

  /** The merged profiles: those read and those given; the given ones hold their credential lines. */
  lemma MergedContents(parsed: map<string, seq<string>>, credentials: map<string, AwsCredentialsEntry>)
    ensures Merged(parsed, credentials).Keys == parsed.Keys + credentials.Keys
    ensures forall p :: p in credentials ==> Merged(parsed, credentials)[p] == CredentialLines(credentials[p])
    ensures forall p :: p in parsed && p !in credentials ==> Merged(parsed, credentials)[p] == parsed[p]
  {
  }

  /** The third loop: write every profile, in whatever order the map yields them. */
  method RenderProfiles(merged: map<string, seq<string>>) returns (updatedContent: string)
    ensures exists order :: IsOrderOf(order, merged) && updatedContent == RenderText(merged, order)
  {
    updatedContent := "";
    ghost var order: seq<string> := [];
    var remaining := merged.Keys;
    while remaining != {}
      invariant remaining <= merged.Keys
      invariant forall k :: 0 <= k < |order| ==> order[k] in merged && order[k] !in remaining
      invariant forall p :: p in merged ==> p in order || p in remaining
      invariant forall k, l :: 0 <= k < l < |order| ==> order[k] != order[l]
      invariant updatedContent == RenderText(merged, order)
      decreases remaining
    {
      var profile :| profile in remaining;
      updatedContent := WriteProfile(updatedContent, profile, merged[profile]);
      RenderOneMore(merged, order, profile);
      order := order + [profile];
      remaining := remaining - {profile};
    }
  }

  /** Writing one more profile appends its block to the text. */
  lemma RenderOneMore(m: map<string, seq<string>>, order: seq<string>, p: string)
    requires p in m && forall i :: 0 <= i < |order| ==> order[i] in m
    ensures forall i :: 0 <= i < |order + [p]| ==> (order + [p])[i] in m
    ensures RenderText(m, order + [p]) == RenderText(m, order) + FileText(["[" + p + "]"] + m[p])
  {
    assert (order + [p])[..|order|] == order;
    TerminatedConcat(RenderedLines(m, order), ["[" + p + "]"] + m[p], "\n");
  }

  /** One profile's block written after `content`: its "[name]" header, then each of its lines. */
  method WriteProfile(content: string, profile: string, entries: seq<string>) returns (updatedContent: string)
    ensures updatedContent == content + FileText(["[" + profile + "]"] + entries)
  {
    ghost var section := ["[" + profile + "]"] + entries;
    TakeStep(section, 0);
    TerminatedAppend([], section[0], "\n");
    updatedContent := content + ("[" + profile + "]" + "\n");
    var j := 0;
    while j < |entries|
      invariant 0 <= j <= |entries|
      invariant updatedContent == content + FileText(section[..j + 1])
    {
      TakeStep(section, j + 1);
      TerminatedAppend(section[..j + 1], section[j + 1], "\n");
      updatedContent := updatedContent + (entries[j] + "\n");
      j := j + 1;
    }
    assert section[..j + 1] == section;
  }

  /**
   * UpdateAWSCredentialsFile, up to the final write: the text to write back,
   * or the read error. A missing file reads as empty text.
   */
  method UpdateAWSCredentialsFile(file: FileRead, credentials: map<string, AwsCredentialsEntry>)
    returns (r: Result<string, Error>)
    ensures file.ReadFailed? <==> r.Failure?
    ensures file.ReadFailed? ==> r == Failure(Collaborator(file.message))
    ensures r.Success? ==>
      var merged := Merged(ReadProfiles(if file.Contents? then file.text else ""), credentials);
      exists order :: IsOrderOf(order, merged) && r.value == RenderText(merged, order)
  {
    if file.ReadFailed? {
      return Failure(Collaborator(file.message));
    }
    var fileContent := if file.Contents? then file.text else "";
    var parsed := ReadProfileEntries(fileContent);
    var merged := MergeCredentials(parsed, credentials);
    var updatedContent := RenderProfiles(merged);
    return Success(updatedContent);
  }

  // ---------------------------------------------------------------------
  // What the reading loop makes of a file

  /** The index of the last header line, if there is one. */
  function LastHeader(lines: seq<Line>): (r: Option<nat>)
    ensures r.Some? ==> r.value < |lines| && lines[r.value].opens
    decreases |lines|
  {
    if lines == [] then None
    else if lines[|lines| - 1].opens then Some(|lines| - 1)
    else LastHeader(lines[..|lines| - 1])
  }

  /** The index of the last header line that opens profile `k`, if there is one. */
  function LastHeaderNamed(lines: seq<Line>, k: string): (r: Option<nat>)
    ensures r.Some? ==> r.value < |lines| && lines[r.value] == Line(true, k)
    decreases |lines|
  {
    if lines == [] then None
    else if lines[|lines| - 1] == Line(true, k) then Some(|lines| - 1)
    else LastHeaderNamed(lines[..|lines| - 1], k)
  }

  /** The index of the first header line at or after `from`, or the end of the file. */
  function SectionEnd(lines: seq<Line>, from: nat): (e: nat)
    requires from <= |lines|
    ensures from <= e <= |lines|
    ensures e < |lines| ==> lines[e].opens
    decreases |lines| - from
  {
    if from == |lines| || lines[from].opens then from else SectionEnd(lines, from + 1)
  }

  /** No header follows the last one. */
  lemma {:induction false} NoHeaderAfterLast(lines: seq<Line>, j: nat)
    requires j < |lines| && lines[j].opens
    ensures LastHeader(lines).Some? && j <= LastHeader(lines).value
    decreases |lines|
  {
    if j < |lines| - 1 && !lines[|lines| - 1].opens {
      var init := lines[..|lines| - 1];
      assert init[j] == lines[j];
      NoHeaderAfterLast(init, j);
    }
  }

  /** No header of profile `k` follows the last one. */
  lemma {:induction false} NoNamedHeaderAfterLast(lines: seq<Line>, k: string, j: nat)
    requires j < |lines| && lines[j] == Line(true, k)
    ensures LastHeaderNamed(lines, k).Some? && j <= LastHeaderNamed(lines, k).value
    decreases |lines|
  {
    if j < |lines| - 1 && lines[|lines| - 1] != Line(true, k) {
      var init := lines[..|lines| - 1];
      assert init[j] == lines[j];
      NoNamedHeaderAfterLast(init, k, j);
    }
  }

  /** A section holds no header. */
  lemma {:induction false} NoHeaderInSection(lines: seq<Line>, from: nat, j: nat)
    requires from <= |lines| && from <= j < SectionEnd(lines, from)
    ensures !lines[j].opens
    decreases |lines| - from
  {
    if from < j {
      NoHeaderInSection(lines, from + 1, j);
    }
  }

  /** The text of every line. */
  function Texts(lines: seq<Line>): (r: seq<string>)
    ensures |r| == |lines| && forall i :: 0 <= i < |lines| ==> r[i] == lines[i].text
  {
    seq(|lines|, i requires 0 <= i < |lines| => lines[i].text)
  }

  /** The first header at or after `from` is at `e`. */
  lemma {:induction false} SectionEndIs(lines: seq<Line>, from: nat, e: nat)
    requires from <= e <= |lines|
    requires forall j :: from <= j < e ==> !lines[j].opens
    requires e < |lines| ==> lines[e].opens
    ensures SectionEnd(lines, from) == e
    decreases e - from
  {
    if from < e {
      SectionEndIs(lines, from + 1, e);
    }
  }

  /** The lines of profile `k`: those between its last header and the next header. */
  ghost function Section(lines: seq<Line>, k: string): seq<string>
    requires LastHeaderNamed(lines, k).Some?
  {
    var h := LastHeaderNamed(lines, k).value;
    Texts(lines[h + 1..SectionEnd(lines, h + 1)])
  }

  /**
   * `st` is what the reading loop holds after `lines`: the current profile
   * is the one the last header opened; the profiles are the names of the
   * header lines; a named profile holds its `Section`; the unnamed profile
   * of "[]" holds no lines.
   */
  ghost predicate Describes(lines: seq<Line>, st: Reader)
  {
    && st.current == (if LastHeader(lines).Some? then lines[LastHeader(lines).value].text else "")
    && (forall k :: k in st.entries <==> LastHeaderNamed(lines, k).Some?)
    && (forall k :: k in st.entries && k != "" ==>
          LastHeaderNamed(lines, k).Some? && st.entries[k] == Section(lines, k))
    && ("" in st.entries ==> st.entries[""] == [])
  }

  lemma LastHeadersAppend(init: seq<Line>, x: Line)
    ensures LastHeader(init + [x]) == if x.opens then Some(|init|) else LastHeader(init)
    ensures forall k ::
      LastHeaderNamed(init + [x], k) == if x == Line(true, k) then Some(|init|) else LastHeaderNamed(init, k)
  {
    assert (init + [x])[..|init|] == init;
  }

  /** The last header of all is also the last header carrying its own name. */
  lemma LastHeaderIsNamed(lines: seq<Line>)
    requires LastHeader(lines).Some?
    ensures LastHeaderNamed(lines, lines[LastHeader(lines).value].text) == LastHeader(lines)
  {
    var hc := LastHeader(lines).value;
    var c := lines[hc].text;
    NoNamedHeaderAfterLast(lines, c, hc);
    NoHeaderAfterLast(lines, LastHeaderNamed(lines, c).value);
  }

  /** A profile other than the one the last header opened ends before the last header. */
  lemma SectionEndsEarly(init: seq<Line>, k: string)
    requires LastHeaderNamed(init, k).Some? && LastHeader(init).Some?
    requires k != init[LastHeader(init).value].text
    ensures SectionEnd(init, LastHeaderNamed(init, k).value + 1) < |init|
  {
    var h := LastHeaderNamed(init, k).value;
    var hl := LastHeader(init).value;
    NoHeaderAfterLast(init, h);
    assert h < hl;
    if SectionEnd(init, h + 1) > hl {
      NoHeaderInSection(init, h + 1, hl);
    }
  }

  /** A section that ended before the last line, or ends at it, keeps its extent and text. */
  lemma SectionKept(init: seq<Line>, x: Line, from: nat)
    requires from <= |init|
    requires SectionEnd(init, from) < |init| || x.opens
    ensures SectionEnd(init + [x], from) == SectionEnd(init, from)
    ensures (init + [x])[from..SectionEnd(init, from)] == init[from..SectionEnd(init, from)]
  {
    var lines := init + [x];
    var e := SectionEnd(init, from);
    forall j | from <= j < e ensures !lines[j].opens {
      NoHeaderInSection(init, from, j);
      assert lines[j] == init[j];
    }
    assert e < |lines| ==> lines[e].opens by {
      if e < |init| {
        assert lines[e] == init[e];
      } else {
        assert lines[e] == x;
      }
    }
    SectionEndIs(lines, from, e);
  }

  /** A profile whose section ended before the last line, or ends at it, keeps its lines. */
  lemma SectionStays(init: seq<Line>, x: Line, k: string)
    requires LastHeaderNamed(init, k).Some? && x != Line(true, k)
    requires x.opens || SectionEnd(init, LastHeaderNamed(init, k).value + 1) < |init|
    ensures LastHeaderNamed(init + [x], k) == LastHeaderNamed(init, k)
    ensures Section(init + [x], k) == Section(init, k)
  {
    var lines := init + [x];
    assert lines[..|init|] == init;
    assert LastHeaderNamed(lines, k) == LastHeaderNamed(init, k);
    var h := LastHeaderNamed(init, k).value;
    SectionKept(init, x, h + 1);
  }

  /** The section of the last header runs to the end of the file, before and after a non-header line. */
  lemma LastSectionEnds(init: seq<Line>, x: Line)
    requires !x.opens && LastHeader(init).Some?
    ensures SectionEnd(init, LastHeader(init).value + 1) == |init|
    ensures SectionEnd(init + [x], LastHeader(init).value + 1) == |init| + 1
  {
    var lines := init + [x];
    var n := |init|;
    var hc := LastHeader(init).value;
    forall j | hc + 1 <= j < n + 1 ensures !lines[j].opens {
      if j < n {
        assert lines[j] == init[j];
        if init[j].opens {
          NoHeaderAfterLast(init, j);
        }
      }
    }
    SectionEndIs(init, hc + 1, n);
    SectionEndIs(lines, hc + 1, n + 1);
  }

  /** The current named profile gains the trimmed line. */
  lemma SectionGrows(init: seq<Line>, x: Line)
    requires !x.opens && LastHeader(init).Some?
    ensures var c := init[LastHeader(init).value].text;
      && LastHeaderNamed(init + [x], c) == LastHeaderNamed(init, c) == LastHeader(init)
      && Section(init + [x], c) == Section(init, c) + [x.text]
  {
    var lines := init + [x];
    var n := |init|;
    var hc := LastHeader(init).value;
    var c := init[hc].text;
    assert LastHeaderNamed(lines, c) == LastHeaderNamed(init, c) by {
      LastHeadersAppend(init, x);
    }
    LastHeaderIsNamed(init);
    LastSectionEnds(init, x);
    SectionIs(init, c, hc, n);
    SectionIs(lines, c, hc, n + 1);
    TailAppend(init, x, hc + 1);
    TextsAppend(init[hc + 1..n], x);
  }

  lemma SectionIs(lines: seq<Line>, k: string, h: nat, e: nat)
    requires LastHeaderNamed(lines, k) == Some(h) && SectionEnd(lines, h + 1) == e
    ensures Section(lines, k) == Texts(lines[h + 1..e])
  {
  }

  lemma TextsAppend(a: seq<Line>, x: Line)
    ensures Texts(a + [x]) == Texts(a) + [x.text]
  {
    assert forall i :: 0 <= i < |a| ==> (a + [x])[i] == a[i];
  }

  /** A header line opens (or reopens, emptied) its profile and leaves the others as they were. */
  lemma {:induction false} ReadHeader(init: seq<Line>, st: Reader, x: Line)
    requires Describes(init, st) && x.opens
    ensures Describes(init + [x], ReadLine(st, x))
  {
    var lines := init + [x];
    var n := |init|;
    var st' := ReadLine(st, x);
    LastHeadersAppend(init, x);
    assert lines[n] == x;
    assert st' == Reader(x.text, st.entries[x.text := []]);
    forall k | k in st'.entries && k != ""
      ensures LastHeaderNamed(lines, k).Some? && st'.entries[k] == Section(lines, k)
    {
      if k == x.text {
        OpenedSectionEmpty(init, x);
      } else {
        SectionStays(init, x, k);
      }
    }
  }

  /** The profile a header opens has no lines yet. */
  lemma OpenedSectionEmpty(init: seq<Line>, x: Line)
    requires x.opens
    ensures LastHeaderNamed(init + [x], x.text) == Some(|init|)
    ensures Section(init + [x], x.text) == []
  {
    var lines := init + [x];
    assert lines[|init|] == x;
    SectionEndIs(lines, |init| + 1, |init| + 1);
  }

  /** The profiles other than the current one keep their lines when a line is appended. */
  lemma OthersStay(init: seq<Line>, st: Reader, x: Line, k: string)
    requires Describes(init, st) && !x.opens && LastHeader(init).Some?
    requires k in st.entries && k != "" && k != st.current
    ensures LastHeaderNamed(init + [x], k).Some? && st.entries[k] == Section(init + [x], k)
  {
    SectionEndsEarly(init, k);
    SectionStays(init, x, k);
  }

  /** The profile a non-header line joins is the current one, which already exists. */
  lemma CurrentExists(init: seq<Line>, st: Reader, x: Line)
    requires Describes(init, st) && !x.opens && st.current != ""
    ensures st.current in st.entries
    ensures LastHeader(init + [x]) == LastHeader(init)
    ensures forall k :: LastHeaderNamed(init + [x], k) == LastHeaderNamed(init, k)
  {
    LastHeadersAppend(init, x);
    LastHeaderIsNamed(init);
  }

  /** Any other line joins the current named profile. */
  lemma {:induction false} ReadEntry(init: seq<Line>, st: Reader, x: Line)
    requires Describes(init, st) && !x.opens && st.current != ""
    ensures Describes(init + [x], ReadLine(st, x))
  {
    var lines := init + [x];
    var c := st.current;
    CurrentExists(init, st, x);
    var entries' := st.entries[c := st.entries[c] + [x.text]];
    assert ReadLine(st, x) == Reader(c, entries');
    forall k | k in entries' && k != ""
      ensures LastHeaderNamed(lines, k).Some? && entries'[k] == Section(lines, k)
    {
      if k == c {
        SectionGrows(init, x);
      } else {
        OthersStay(init, st, x, k);
      }
    }
  }

  /** Any other line before the first header, or after "[]", is dropped. */
  lemma {:induction false} ReadDropped(init: seq<Line>, st: Reader, x: Line)
    requires Describes(init, st) && !x.opens && st.current == ""
    ensures Describes(init + [x], ReadLine(st, x))
  {
    var lines := init + [x];
    LastHeadersAppend(init, x);
    assert ReadLine(st, x) == st;
    forall k | k in st.entries && k != ""
      ensures LastHeaderNamed(lines, k).Some? && st.entries[k] == Section(lines, k)
    {
      NoHeaderAfterLast(init, LastHeaderNamed(init, k).value);
      SectionEndsEarly(init, k);
      SectionStays(init, x, k);
    }
  }

  /** The reading loop over any file's classified lines ends in the state `Describes` gives. */
  lemma {:induction false} ReadSections(lines: seq<Line>)
    ensures Describes(lines, ReadFrom(Start, lines))
    decreases |lines|
  {
    if lines != [] {
      var init := lines[..|lines| - 1];
      var x := lines[|lines| - 1];
      assert init + [x] == lines;
      ReadSections(init);
      var st := ReadFrom(Start, init);
      if x.opens {
        ReadHeader(init, st, x);
      } else if st.current != "" {
        ReadEntry(init, st, x);
      } else {
        ReadDropped(init, st, x);
      }
    }
  }

  /** What the first loop makes of a file, in terms of its lines. */
  lemma ReadProfilesSections(text: string)
    ensures var lines := ClassifyAll(Split(text, "\n"));
      var profiles := ReadProfiles(text);
      && (forall k :: k in profiles <==> LastHeaderNamed(lines, k).Some?)
      && (forall k :: k in profiles && k != "" ==> profiles[k] == Section(lines, k))
      && ("" in profiles ==> profiles[""] == [])
  {
    ReadSections(ClassifyAll(Split(text, "\n")));
  }

  // ---------------------------------------------------------------------
  // Writing the profiles back and reading them again

  /** A profile name that reads back as itself from its "[name]" header. */
  predicate WritableName(p: string)
  {
    '\n' !in p && (p == [] || (!IsBracket(p[0]) && !IsBracket(p[|p| - 1])))
  }

  /** A line that reads back as itself inside a section: no newline, no space at either end, not a header. */
  predicate WritableLine(e: string)
  {
    '\n' !in e && (e == [] || (!IsSpace(e[0]) && !IsSpace(e[|e| - 1]))) && !IsHeader(e)
  }

  /** Profiles that can be written and read back; the unnamed profile has no lines to lose. */
  ghost predicate Writable(m: map<string, seq<string>>)
  {
    forall p :: p in m ==>
      && WritableName(p)
      && (p == "" ==> m[p] == [])
      && forall i :: 0 <= i < |m[p]| ==> WritableLine(m[p][i])
  }

  /** What reading a written file gives back: the profiles, the last one written with one more, empty, line. */
  function Reread(m: map<string, seq<string>>, order: seq<string>): map<string, seq<string>>
    requires forall i :: 0 <= i < |order| ==> order[i] in m
  {
    if order == [] then m
    else
      var last := order[|order| - 1];
      if last == "" then m else m[last := m[last] + [""]]
  }

  /**
   * The empty line a re-read adds to the profile written last lasts only until
   * that profile is next replaced: a next merge whose credentials include it
   * gives what merging the profiles as written gives; otherwise the line stays.
   */
  lemma MergeAfterReread(m: map<string, seq<string>>, order: seq<string>, credentials: map<string, AwsCredentialsEntry>)
    requires forall i :: 0 <= i < |order| ==> order[i] in m
    ensures order == [] || order[|order| - 1] in credentials ==>
      Merged(Reread(m, order), credentials) == Merged(m, credentials)
    ensures order != [] && order[|order| - 1] != "" && order[|order| - 1] !in credentials ==>
      var last := order[|order| - 1];
      Merged(Reread(m, order), credentials) == Merged(m, credentials)[last := m[last] + [""]]
  {
  }

  /** strings.Trim(s, "[]") gives back the name inside one pair of brackets. */
  lemma TrimBrackets(p: string)
    requires WritableName(p)
    ensures SectionName("[" + p + "]") == p
  {
    assert "[" + p + "]" == ['['] + p + [']'];
    TrimEnclosed('[', p, ']', IsBracket);
  }

  lemma BracketedIsTrimmed(p: string)
    ensures TrimSpace("[" + p + "]") == "[" + p + "]"
  {
    var h := "[" + p + "]";
    assert !IsSpace(h[0]) && !IsSpace(h[|h| - 1]);
  }

  lemma BracketedIsHeader(p: string)
    ensures IsHeader("[" + p + "]")
  {
    var h := "[" + p + "]";
    assert h[..1] == "[";
    assert h[|h| - 1..] == "]";
  }

  lemma HeaderReadsBack(p: string)
    requires WritableName(p)
    ensures Classify("[" + p + "]") == Line(true, p)
  {
    BracketedIsTrimmed(p);
    BracketedIsHeader(p);
    TrimBrackets(p);
  }

  lemma LineReadsBack(e: string)
    requires WritableLine(e)
    ensures Classify(e) == Line(false, e)
  {
  }

  /** Splitting the written text at newlines gives the lines back, and one empty piece after the last newline. */
  lemma SplitFileText(lines: seq<string>)
    requires forall i :: 0 <= i < |lines| ==> '\n' !in lines[i]
    ensures Split(FileText(lines), "\n") == lines + [""]
  {
    TerminatedIsJoin(lines, "\n");
    var parts := lines + [""];
    forall i | 0 <= i < |parts| ensures !Contains(parts[i], "\n") {
      ContainsSingle(parts[i], '\n');
    }
    SplitJoin(parts, "\n");
  }

  lemma ReadFromConcat(st: Reader, a: seq<Line>, b: seq<Line>)
    ensures ReadFrom(st, a + b) == ReadFrom(ReadFrom(st, a), b)
    decreases |b|
  {
    if b != [] {
      var init := b[..|b| - 1];
      var x := b[|b| - 1];
      assert (a + b)[..|a + b| - 1] == a + init;
      assert (a + b)[|a + b| - 1] == x;
      ReadFromConcat(st, a, init);
      assert ReadFrom(st, a + b) == ReadLine(ReadFrom(st, a + init), x);
      assert ReadFrom(ReadFrom(st, a), b) == ReadLine(ReadFrom(ReadFrom(st, a), init), x);
    } else {
      assert a + b == a;
    }
  }

  lemma {:induction false} ClassifyAllConcat(a: seq<string>, b: seq<string>)
    ensures ClassifyAll(a + b) == ClassifyAll(a) + ClassifyAll(b)
    decreases |b|
  {
    if b != [] {
      var init := b[..|b| - 1];
      assert (a + b)[..|a + b| - 1] == a + init;
      assert (a + b)[|a + b| - 1] == b[|b| - 1];
      ClassifyAllConcat(a, init);
    } else {
      assert a + b == a;
    }
  }

  /** Lines that are not headers, with the given texts. */
  function Plain(es: seq<string>): (r: seq<Line>)
    ensures |r| == |es|
    decreases |es|
  {
    if es == [] then [] else Plain(es[..|es| - 1]) + [Line(false, es[|es| - 1])]
  }

  /** Written lines classify as plain lines with the same text. */
  lemma {:induction false} ClassifyPlain(es: seq<string>)
    requires forall i :: 0 <= i < |es| ==> WritableLine(es[i])
    ensures ClassifyAll(es) == Plain(es)
    decreases |es|
  {
    if es != [] {
      var init := es[..|es| - 1];
      var e := es[|es| - 1];
      ClassifyPlain(init);
      LineReadsBack(e);
    }
  }

  /** A written profile classifies as its header followed by plain lines. */
  lemma ClassifySection(p: string, es: seq<string>)
    requires WritableName(p)
    requires forall i :: 0 <= i < |es| ==> WritableLine(es[i])
    ensures ClassifyAll(["[" + p + "]"] + es) == [Line(true, p)] + Plain(es)
  {
    assert ClassifyAll(["[" + p + "]"]) == [Line(true, p)] by {
      assert ["[" + p + "]"][..0] == [];
      HeaderReadsBack(p);
    }
    ClassifyAllConcat(["[" + p + "]"], es);
    ClassifyPlain(es);
  }

  /** Reading a header and the plain lines after it: the profile holds exactly those lines. */
  lemma {:induction false} ReadSectionLines(st: Reader, p: string, es: seq<string>)
    requires p == "" ==> es == []
    ensures ReadFrom(st, [Line(true, p)] + Plain(es)) == Reader(p, st.entries[p := es])
    decreases |es|
  {
    if es == [] {
      assert [Line(true, p)] + Plain(es) == [] + [Line(true, p)];
      ReadFromLast(st, [], Line(true, p));
    } else {
      var init := es[..|es| - 1];
      var e := es[|es| - 1];
      var before := [Line(true, p)] + Plain(init);
      ReadSectionLines(st, p, init);
      assert [Line(true, p)] + Plain(es) == before + [Line(false, e)] by {
        assert Plain(es) == Plain(init) + [Line(false, e)];
        AppendAssoc([Line(true, p)], Plain(init), [Line(false, e)]);
      }
      ReadFromLast(st, before, Line(false, e));
      FrontLast(es);
      assert st.entries[p := init][p := es] == st.entries[p := es];
    }
  }

  /** The profiles of `m` that `order` lists. */
  function Restrict(m: map<string, seq<string>>, order: seq<string>): (r: map<string, seq<string>>)
    ensures forall p :: p in r <==> p in m && p in order
    ensures forall p :: p in r ==> r[p] == m[p]
  {
    map p | p in m && p in order :: m[p]
  }

  /** Reading the written profiles of `order`: the last one is current, each holds its lines. */
  lemma {:induction false} ReadRendered(m: map<string, seq<string>>, order: seq<string>)
    requires Writable(m) && forall i :: 0 <= i < |order| ==> order[i] in m
    ensures ReadFrom(Start, ClassifyAll(RenderedLines(m, order)))
      == Reader(if order == [] then "" else order[|order| - 1], Restrict(m, order))
    decreases |order|
  {
    if order == [] {
      assert Restrict(m, order) == map[];
    } else {
      var init := order[..|order| - 1];
      var p := order[|order| - 1];
      assert order == init + [p];
      RestrictAppend(m, init, p);
      ReadRendered(m, init);
      var before := ClassifyAll(RenderedLines(m, init));
      var section := ["[" + p + "]"] + m[p];
      assert RenderedLines(m, order) == RenderedLines(m, init) + section;
      ClassifyAllConcat(RenderedLines(m, init), section);
      ClassifySection(p, m[p]);
      ReadFromConcat(Start, before, [Line(true, p)] + Plain(m[p]));
      ReadSectionLines(ReadFrom(Start, before), p, m[p]);
    }
  }

  lemma RestrictAppend(m: map<string, seq<string>>, init: seq<string>, p: string)
    requires p in m
    ensures Restrict(m, init + [p]) == Restrict(m, init)[p := m[p]]
  {
  }

  /** Restricting to an order that lists every profile keeps them all. */
  lemma RestrictAll(m: map<string, seq<string>>, order: seq<string>)
    requires IsOrderOf(order, m)
    ensures Restrict(m, order) == m
  {
  }

  /** The reading loop takes its last line after all the others. */
  lemma ReadFromLast(st: Reader, a: seq<Line>, x: Line)
    ensures ReadFrom(st, a + [x]) == ReadLine(ReadFrom(st, a), x)
  {
    assert (a + [x])[..|a|] == a;
  }

  /** The empty piece after the final newline joins the profile written last. */
  lemma EmptyPieceJoinsLast(m: map<string, seq<string>>, order: seq<string>)
    requires IsOrderOf(order, m)
    ensures ReadLine(Reader(if order == [] then "" else order[|order| - 1], m), Line(false, "")).entries
      == Reread(m, order)
  {
  }

  /** Reading the written lines, and the empty piece after the final newline. */
  lemma ReadWrittenLines(m: map<string, seq<string>>, order: seq<string>)
    requires Writable(m) && IsOrderOf(order, m)
    ensures ReadFrom(Start, ClassifyAll(RenderedLines(m, order) + [""])).entries == Reread(m, order)
  {
    var lines := RenderedLines(m, order);
    ClassifyAllConcat(lines, [""]);
    EmptyLineIsPlain();
    ReadFromLast(Start, ClassifyAll(lines), Line(false, ""));
    ReadRendered(m, order);
    RestrictAll(m, order);
    EmptyPieceJoinsLast(m, order);
  }

  /**
   * Writing profiles in any order and reading the text back gives the same
   * profiles, except that the profile written last gains an empty line: the
   * text ends in a newline, and the empty piece after it joins that profile.
   */
  lemma RenderReadsBack(m: map<string, seq<string>>, order: seq<string>)
    requires Writable(m) && IsOrderOf(order, m)
    ensures ReadProfiles(RenderText(m, order)) == Reread(m, order)
  {
    var lines := RenderedLines(m, order);
    assert Split(RenderText(m, order), "\n") == lines + [""] by {
      RenderedLinesWritable(m, order);
      SplitFileText(lines);
    }
    ReadWrittenLines(m, order);
  }

  lemma EmptyLineIsPlain()
    ensures ClassifyAll([""]) == [Line(false, "")]
  {
    assert !IsHeader("");
  }

  /** No written line holds a newline. */
  lemma {:induction false} RenderedLinesWritable(m: map<string, seq<string>>, order: seq<string>)
    requires Writable(m) && forall i :: 0 <= i < |order| ==> order[i] in m
    ensures forall i :: 0 <= i < |RenderedLines(m, order)| ==> '\n' !in RenderedLines(m, order)[i]
    decreases |order|
  {
    if order != [] {
      var init := order[..|order| - 1];
      var p := order[|order| - 1];
      RenderedLinesWritable(m, init);
      var a := RenderedLines(m, init);
      var section := ["[" + p + "]"] + m[p];
      forall i | 0 <= i < |a + section| ensures '\n' !in (a + section)[i] {
        if i < |a| {
          assert (a + section)[i] == a[i];
        } else if i == |a| {
          assert (a + section)[i] == "[" + p + "]";
        } else {
          assert (a + section)[i] == m[p][i - |a| - 1];
        }
      }
    }
  }

  // ---------------------------------------------------------------------
  // Profiles read from any file can be written back

  /** A classified line that reads back as itself once written. */
  predicate WritableClass(l: Line)
  {
    if l.opens then WritableName(l.text) else WritableLine(l.text)
  }

  lemma ClassifiedWritable(raw: string)
    requires '\n' !in raw
    ensures WritableClass(Classify(raw))
  {
    var t := TrimSpace(raw);
    assert '\n' !in t;
    if IsHeader(t) {
      assert '\n' !in SectionName(t);
    }
  }

  lemma {:induction false} ClassifyAllWritable(raws: seq<string>)
    requires forall i :: 0 <= i < |raws| ==> '\n' !in raws[i]
    ensures forall i :: 0 <= i < |raws| ==> WritableClass(ClassifyAll(raws)[i])
    decreases |raws|
  {
    if raws != [] {
      var init := raws[..|raws| - 1];
      ClassifyAllWritable(init);
      ClassifiedWritable(raws[|raws| - 1]);
    }
  }

  /** The pieces of a text split at newlines hold no newline. */
  lemma PiecesHaveNoNewline(text: string)
    ensures forall i :: 0 <= i < |Split(text, "\n")| ==> '\n' !in Split(text, "\n")[i]
  {
    var parts := Split(text, "\n");
    forall i | 0 <= i < |parts| ensures '\n' !in parts[i] {
      ContainsSingle(parts[i], '\n');
    }
  }

  lemma SectionWritable(lines: seq<Line>, k: string)
    requires LastHeaderNamed(lines, k).Some?
    requires forall i :: 0 <= i < |lines| ==> WritableClass(lines[i])
    ensures forall i :: 0 <= i < |Section(lines, k)| ==> WritableLine(Section(lines, k)[i])
  {
    var h := LastHeaderNamed(lines, k).value;
    var e := SectionEnd(lines, h + 1);
    forall i | 0 <= i < e - h - 1 ensures WritableLine(Section(lines, k)[i]) {
      NoHeaderInSection(lines, h + 1, h + 1 + i);
      assert Section(lines, k)[i] == lines[h + 1 + i].text;
    }
  }

  lemma {:induction false} DescribedWritable(lines: seq<Line>, st: Reader)
    requires Describes(lines, st)
    requires forall i :: 0 <= i < |lines| ==> WritableClass(lines[i])
    ensures Writable(st.entries)
  {
    forall k | k in st.entries
      ensures && WritableName(k)
              && (k == "" ==> st.entries[k] == [])
              && forall i :: 0 <= i < |st.entries[k]| ==> WritableLine(st.entries[k][i])
    {
      var h := LastHeaderNamed(lines, k).value;
      assert WritableClass(lines[h]);
      if k != "" {
        SectionWritable(lines, k);
      }
    }
  }

  /** Every profile read from a file, with its lines, can be written back. */
  lemma FileProfilesWritable(text: string)
    ensures Writable(ReadProfiles(text))
  {
    var raws := Split(text, "\n");
    PiecesHaveNoNewline(text);
    ClassifyAllWritable(raws);
    ReadSections(ClassifyAll(raws));
    DescribedWritable(ClassifyAll(raws), ReadFrom(Start, ClassifyAll(raws)));
  }

  /** A credential value written after "key=": no newline and no trailing space. */
  predicate WritableValue(v: string)
  {
    '\n' !in v && (v == [] || !IsSpace(v[|v| - 1]))
  }

  /** A "key=" prefix: starts with a lower-case letter, ends with '=', holds no newline. */
  predicate KeyPrefix(key: string)
  {
    |key| >= 2 && 'a' <= key[0] <= 'z' && key[|key| - 1] == '=' && '\n' !in key
  }

  lemma KeyValueWritable(key: string, v: string)
    requires KeyPrefix(key) && WritableValue(v)
    ensures WritableLine(key + v)
  {
    var line := key + v;
    assert line[0] == key[0];
    assert line[|line| - 1] == if v == [] then key[|key| - 1] else v[|v| - 1];
    assert !HasPrefix(line, "[") by {
      assert line[..1] == [key[0]];
    }
  }

  lemma CredentialKeys()
    ensures KeyPrefix(AccessKeyIdKey) && KeyPrefix(SecretAccessKeyKey)
    ensures KeyPrefix(ExpirationKey) && KeyPrefix(SessionTokenKey)
  {
  }

  lemma CredentialLinesWritable(e: AwsCredentialsEntry)
    requires WritableValue(e.accessKeyId) && WritableValue(e.secretAccessKey)
    requires WritableValue(e.sessionToken) && WritableValue(e.expiration)
    ensures forall i :: 0 <= i < |CredentialLines(e)| ==> WritableLine(CredentialLines(e)[i])
  {
    CredentialKeys();
    KeyValueWritable(AccessKeyIdKey, e.accessKeyId);
    KeyValueWritable(SecretAccessKeyKey, e.secretAccessKey);
    KeyValueWritable(ExpirationKey, e.expiration);
    KeyValueWritable(SessionTokenKey, e.sessionToken);
  }

  /** Credentials whose profile names and values can be written back. */
  ghost predicate WritableCredentials(credentials: map<string, AwsCredentialsEntry>)
  {
    forall p :: p in credentials ==>
      && p != "" && WritableName(p)
      && WritableValue(credentials[p].accessKeyId) && WritableValue(credentials[p].secretAccessKey)
      && WritableValue(credentials[p].sessionToken) && WritableValue(credentials[p].expiration)
  }

  /**
   * Whatever the existing file holds, re-reading the text UpdateAWSCredentialsFile
   * writes, in any profile order, gives the merged profiles back, the profile
   * written last with one more empty line.
   */
  lemma UpdateReadsBack(text: string, credentials: map<string, AwsCredentialsEntry>, order: seq<string>)
    requires WritableCredentials(credentials)
    requires IsOrderOf(order, Merged(ReadProfiles(text), credentials))
    ensures var merged := Merged(ReadProfiles(text), credentials);
      ReadProfiles(RenderText(merged, order)) == Reread(merged, order)
  {
    var profiles := ReadProfiles(text);
    var merged := Merged(profiles, credentials);
    FileProfilesWritable(text);
    forall p | p in merged
      ensures && WritableName(p)
              && (p == "" ==> merged[p] == [])
              && forall i :: 0 <= i < |merged[p]| ==> WritableLine(merged[p][i])
    {
      if p in credentials {
        CredentialLinesWritable(credentials[p]);
      }
    }
    RenderReadsBack(merged, order);
  }
}
