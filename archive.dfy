/** The conversion loop over the uploaded archive: which members are converted,
    how many, under which names, and how the run ends. */
module Archive {
  import opened Wrappers
  import opened Text
  import opened Paths
  import opened Render

  /** One member of the uploaded archive as the zip library lists it, together with
      what the message library makes of that member's own bytes: None when parsing
      them raises. `isDir` is the library's is_dir(), which holds exactly when the
      name ends in '/'; the model keeps it as a separate flag, which covers more
      cases than can occur. A name ending in '/' never ends in ".msg", so the
      directory test never decides on its own whether a member is converted. */
  datatype ZipEntry = ZipEntry(filename: string, isDir: bool, parsed: Option<Message>)

  /** One member written to the output archive: its name and the text drawn into it. */
  datatype OutputFile = OutputFile(name: string, text: seq<string>)

  /** How a conversion run ends. Failed: an exception reached the handler, an error
      is shown and nothing is offered. NoMessages: the warning that the archive holds
      no .msg member. Converted: the success message and the download. */
  datatype Outcome = Failed | NoMessages | Converted(count: nat, files: seq<OutputFile>)

  /** The loop's two filters: not a directory, and a name that ends in ".msg" once
      lower-cased. */
  predicate IsMsgEntry(e: ZipEntry)
    ensures IsMsgEntry(e) ==>
      !e.isDir && |e.filename| >= 4 && e.filename[|e.filename| - 4] == '.'
  {
    !e.isDir && EndsWith(Lower(e.filename), ".msg")
  }

  /** The filter accepts ".msg" in any mix of case: the name's last four characters
      are '.', then m, s and g, each in either case. */
  lemma IsMsgEntryIgnoresCase(e: ZipEntry)
    ensures var s, n := e.filename, |e.filename|;
      IsMsgEntry(e) <==>
        !e.isDir && n >= 4 && s[n - 4] == '.' && (s[n - 3] == 'm' || s[n - 3] == 'M') &&
        (s[n - 2] == 's' || s[n - 2] == 'S') && (s[n - 1] == 'g' || s[n - 1] == 'G')
  {
  }

  /** The members the loop converts, in archive order. */
  function Selected(entries: seq<ZipEntry>): (sel: seq<ZipEntry>)
    ensures forall k :: 0 <= k < |sel| ==> IsMsgEntry(sel[k])
  {
    if entries == [] then []
    else
      var last := entries[|entries| - 1];
      Selected(entries[..|entries| - 1]) + (if IsMsgEntry(last) then [last] else [])
  }

  /** A member is converted exactly when it is in the archive and passes the filter. */
  lemma {:induction false} SelectedMembership(entries: seq<ZipEntry>, e: ZipEntry)
    ensures e in Selected(entries) <==> e in entries && IsMsgEntry(e)
  {
    if entries != [] {
      var init, last := entries[..|entries| - 1], entries[|entries| - 1];
      SelectedMembership(init, e);
      assert entries == init + [last];
    }
  }

  /** The indices of the members that pass the filter. */
  function MsgIndices(entries: seq<ZipEntry>): set<int>
  {
    set j | 0 <= j < |entries| && IsMsgEntry(entries[j])
  }

  /** One more member adds its index to the passing indices exactly when it passes. */
  lemma MsgIndicesStep(entries: seq<ZipEntry>)
    requires entries != []
    ensures var n := |entries| - 1;
      MsgIndices(entries) ==
        MsgIndices(entries[..n]) + (if IsMsgEntry(entries[n]) then {n} else {})
    ensures |entries| - 1 !in MsgIndices(entries[..|entries| - 1])
  {
    var n := |entries| - 1;
    forall j | 0 <= j < n ensures entries[j] == entries[..n][j] { }
  }

  /** msg_count is the number of members that pass the filter. */
  lemma {:induction false} SelectedCount(entries: seq<ZipEntry>)
    ensures |Selected(entries)| == |MsgIndices(entries)|
  {
    if entries != [] {
      var n := |entries| - 1;
      SelectedCount(entries[..n]);
      MsgIndicesStep(entries);
    }
  }

  /** No member passes the filter exactly when none is converted. */
  lemma {:induction false} SelectedEmpty(entries: seq<ZipEntry>)
    ensures Selected(entries) == [] <==> forall j :: 0 <= j < |entries| ==> !IsMsgEntry(entries[j])
  {
    if entries != [] {
      var n := |entries| - 1;
      var init := entries[..n];
      SelectedEmpty(init);
      assert forall j :: 0 <= j < n ==> entries[j] == init[j];
    }
  }

  /** One more member adds itself to the selection exactly when it passes the filter. */
  lemma SelectedStep(entries: seq<ZipEntry>, i: nat)
    requires i < |entries|
    ensures Selected(entries[..i + 1]) ==
      Selected(entries[..i]) + (if IsMsgEntry(entries[i]) then [entries[i]] else [])
  {
    assert entries[..i + 1][..i] == entries[..i];
  }

  /** `input_zip.read(name)` followed by parsing. The zip library's name lookup keeps,
      for each name, the last member listed under it, so this is the message parsed
      from the last member called `name`; None when there is no such member (the
      library raises) or its bytes do not parse. */
  function ReadByName(entries: seq<ZipEntry>, name: string): (r: Option<Message>)
    ensures r.Some? ==>
      exists j :: 0 <= j < |entries| && entries[j].filename == name && entries[j].parsed == r
    decreases |entries|
  {
    if entries == [] then None
    else if entries[|entries| - 1].filename == name then entries[|entries| - 1].parsed
    else
      var r := ReadByName(entries[..|entries| - 1], name);
      assert r.Some? ==>
        exists j :: 0 <= j < |entries| - 1 && entries[j].filename == name && entries[j].parsed == r;
      r
  }

  /** A read by name gives the last member of that name, whatever comes before it. */
  lemma {:induction false} ReadByNameLast(entries: seq<ZipEntry>, j: nat)
    requires j < |entries|
    requires forall i :: j < i < |entries| ==> entries[i].filename != entries[j].filename
    ensures ReadByName(entries, entries[j].filename) == entries[j].parsed
  {
    var n := |entries| - 1;
    if j < n {
      var init := entries[..n];
      assert forall i :: j < i < n ==> init[i] == entries[i];
      ReadByNameLast(init, j);
    }
  }

  /** A name no member carries reads nothing. */
  lemma {:induction false} ReadByNameMissing(entries: seq<ZipEntry>, name: string)
    requires forall i :: 0 <= i < |entries| ==> entries[i].filename != name
    ensures ReadByName(entries, name).None?
  {
    if entries != [] {
      var n := |entries| - 1;
      var init := entries[..n];
      assert forall i :: 0 <= i < n ==> init[i] == entries[i];
      ReadByNameMissing(init, name);
    }
  }

  /** Two members under one name are both read from the second one. */
  lemma DuplicateNameReadsLast(a: ZipEntry, b: ZipEntry)
    requires a.filename == b.filename
    ensures ReadByName([a, b], a.filename) == b.parsed
  {
    ReadByNameLast([a, b], 1);
  }

  /** Every selected member's name reads back a message. */
  predicate AllRead(entries: seq<ZipEntry>, sel: seq<ZipEntry>)
  {
    forall k :: 0 <= k < |sel| ==> ReadByName(entries, sel[k].filename).Some?
  }

  /** When every converted member reads back, every member that passes the filter does. */
  lemma AllReadCovers(entries: seq<ZipEntry>)
    requires AllRead(entries, Selected(entries))
    ensures forall j :: 0 <= j < |entries| && IsMsgEntry(entries[j]) ==>
      ReadByName(entries, entries[j].filename).Some?
  {
    var sel := Selected(entries);
    forall j | 0 <= j < |entries| && IsMsgEntry(entries[j])
      ensures ReadByName(entries, entries[j].filename).Some?
    {
      SelectedMembership(entries, entries[j]);
      var k :| 0 <= k < |sel| && sel[k] == entries[j];
    }
  }

  /** The file written for one converted member: named after that member, drawn from
      the message its name reads back. */
  function OutputFor(entries: seq<ZipEntry>, e: ZipEntry): OutputFile
    requires ReadByName(entries, e.filename).Some?
  {
    OutputFile(OutputName(e.filename), PdfText(ReadByName(entries, e.filename).value))
  }

  /** The conversion of one member, as a partial function of the member. */
  function Converter(entries: seq<ZipEntry>): ZipEntry --> OutputFile
  {
    (e: ZipEntry) requires ReadByName(entries, e.filename).Some? => OutputFor(entries, e)
  }

  /** `f` applied to every element of `s`, in order. */
  function Map(f: ZipEntry --> OutputFile, s: seq<ZipEntry>): (r: seq<OutputFile>)
    requires forall k :: 0 <= k < |s| ==> f.requires(s[k])
    ensures |r| == |s|
  {
    seq(|s|, k requires 0 <= k < |s| => f(s[k]))
  }

  lemma MapAppend(f: ZipEntry --> OutputFile, s: seq<ZipEntry>, x: ZipEntry)
    requires forall k :: 0 <= k < |s| ==> f.requires(s[k])
    requires f.requires(x)
    ensures forall k :: 0 <= k < |s + [x]| ==> f.requires((s + [x])[k])
    ensures Map(f, s + [x]) == Map(f, s) + [f(x)]
  {
    var s' := s + [x];
    forall k | 0 <= k < |s'| ensures f.requires(s'[k]) {
      if k < |s| {
        assert s'[k] == s[k];
      }
    }
    var lhs, rhs := Map(f, s'), Map(f, s) + [f(x)];
    forall k | 0 <= k < |s'| ensures lhs[k] == rhs[k] {
      if k < |s| {
        assert s'[k] == s[k];
      }
    }
  }

  /** The files written for the converted members, in the same order. */
  function Outputs(entries: seq<ZipEntry>, sel: seq<ZipEntry>): (files: seq<OutputFile>)
    requires AllRead(entries, sel)
  {
    Map(Converter(entries), sel)
  }

  lemma AllReadAppend(entries: seq<ZipEntry>, sel: seq<ZipEntry>, e: ZipEntry)
    requires AllRead(entries, sel) && ReadByName(entries, e.filename).Some?
    ensures AllRead(entries, sel + [e])
  {
    var sel' := sel + [e];
    forall k | 0 <= k < |sel'| ensures ReadByName(entries, sel'[k].filename).Some? {
      if k < |sel| {
        assert sel'[k] == sel[k];
      }
    }
  }

  lemma OutputsAppend(entries: seq<ZipEntry>, sel: seq<ZipEntry>, e: ZipEntry)
    requires AllRead(entries, sel) && ReadByName(entries, e.filename).Some?
    ensures AllRead(entries, sel + [e])
    ensures Outputs(entries, sel + [e]) == Outputs(entries, sel) + [OutputFor(entries, e)]
  {
    AllReadAppend(entries, sel, e);
    MapAppend(Converter(entries), sel, e);
  }

  /** Every output name ends in ".pdf" and holds no '/'. */
  lemma OutputsFlat(entries: seq<ZipEntry>, sel: seq<ZipEntry>)
    requires AllRead(entries, sel)
    ensures forall k :: 0 <= k < |sel| ==>
      EndsWith(Outputs(entries, sel)[k].name, ".pdf") && Lacks(Outputs(entries, sel)[k].name, '/')
  {
    forall k | 0 <= k < |sel|
      ensures EndsWith(Outputs(entries, sel)[k].name, ".pdf") && Lacks(Outputs(entries, sel)[k].name, '/')
    {
      OutputNameFlat(sel[k].filename);
    }
  }

  /** The body of the loop for one member that passes the filter: read it by its
      name, draw its text and name the output after it. None when the read or the
      parse raises. */
  method ConvertMember(entries: seq<ZipEntry>, item: ZipEntry) returns (file: Option<OutputFile>)
    ensures file.None? <==> ReadByName(entries, item.filename).None?
    ensures file.Some? ==> file.value == OutputFor(entries, item)
  {
    var msgData := ReadByName(entries, item.filename);
    if msgData.None? {
      return None;
    }
    var text := MsgToPdf(msgData.value);
    var base := SplitExt(Basename(item.filename)).0;
    file := Some(OutputFile(base + ".pdf", text));
  }

  /** The top-level loop: skip directories and members whose lower-cased name does
      not end in ".msg", count the rest, read each by its name, convert it and write
      it under its basename with the extension replaced by ".pdf"; then warn when
      nothing was counted. An exception while reading or converting any member ends
      the run as Failed. */
  method ConvertArchive(entries: seq<ZipEntry>) returns (outcome: Outcome)
    ensures outcome.Failed? <==>
      exists j :: 0 <= j < |entries| && IsMsgEntry(entries[j]) &&
        ReadByName(entries, entries[j].filename).None?
    ensures outcome.NoMessages? <==> forall j :: 0 <= j < |entries| ==> !IsMsgEntry(entries[j])
    ensures outcome.Converted? ==>
      AllRead(entries, Selected(entries)) && outcome.count == |Selected(entries)| > 0 &&
      outcome.files == Outputs(entries, Selected(entries))
  {
    var msgCount := 0;
    var files: seq<OutputFile> := [];
    for i := 0 to |entries|
      invariant msgCount == |Selected(entries[..i])|
      invariant AllRead(entries, Selected(entries[..i]))
      invariant files == Outputs(entries, Selected(entries[..i]))
    {
      var item := entries[i];
      SelectedStep(entries, i);
      if item.isDir {
        continue;
      }
      if !EndsWith(Lower(item.filename), ".msg") {
        continue;
      }
      msgCount := msgCount + 1;
      var file := ConvertMember(entries, item);
      if file.None? {
        return Failed;
      }
      OutputsAppend(entries, Selected(entries[..i]), item);
      files := files + [file.value];
    }
    assert entries[..|entries|] == entries;
    SelectedEmpty(entries);
    AllReadCovers(entries);
    if msgCount == 0 {
      outcome := NoMessages;
    } else {
      outcome := Converted(msgCount, files);
    }
  }
}
