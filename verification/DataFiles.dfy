/** What lands under /data when files are copied into a container
    (app/services/sandbox_execution.py): in one archive, or file by file through the shell when
    the archive is refused. */
module DataFiles {
  import opened Basics

  type RequestId = nat

  /** An entry directly under /data: the request that put it there, and whether it is a regular file. */
  datatype Entry = Entry(name: string, owner: RequestId, regular: bool)

  /** A base64 text: it does not decode, or stands for that many bytes. */
  datatype Payload = Undecodable | Bytes(size: nat)

  datatype DataFile = DataFile(name: string, payload: Payload)

  /** How files were copied: in one archive, or file by file through the shell. A refused archive
      may already have brought the names in `partial`. `created` are the files whose redirection
      created an entry, `failed` those for which a command exited with an error, and `fed` those
      whose decoder found a file of the working directory under a name it was given. */
  datatype Transfer =
    | Archive
    | Shell(partial: set<string>, created: set<DataFile>, failed: set<DataFile>, fed: set<DataFile>)

  // ---------- Names ----------

  /** The part of a path after its last slash (os.path.basename). */
  function Basename(path: string): (r: string)
    ensures '/' !in r
    ensures |r| <= |path| && r == path[|path| - |r|..]
    ensures |r| < |path| ==> path[|path| - |r| - 1] == '/'
  {
    if '/' in path then Basename(path[1..]) else path
  }

  /** A name a file can be created under. */
  predicate Nameable(name: string) {
    name != "" && name != "." && name != ".."
  }

  const PARQUET := ".parquet"

  /** What listing the parquet files of the directory matches: names that start with a dot are hidden. */
  predicate IsParquet(name: string) {
    && |name| >= |PARQUET|
    && name[|name| - |PARQUET|..] == PARQUET
    && name[0] != '.'
  }

  predicate HasParquet(entries: set<Entry>) {
    exists e :: e in entries && IsParquet(e.name)
  }

  predicate Blank(c: char) {
    c == ' ' || c == '\t'
  }

  /** The characters that must be quoted in a shell word (section 2.2 of the POSIX Shell Command
      Language), apart from the blanks; the source quotes nothing. */
  predicate Operator(c: char) {
    c in "\n|&;<>()$`\\\"'"
  }

  predicate HasOperator(name: string) {
    exists i :: 0 <= i < |name| && Operator(name[i])
  }

  predicate HasBlank(name: string) {
    exists i :: 0 <= i < |name| && Blank(name[i])
  }

  /** Where a redirection to an unquoted name goes: up to the first blank. */
  function FirstWord(name: string): (r: string)
    ensures r <= name && !HasBlank(r)
    ensures !HasBlank(name) ==> r == name
  {
    if name == "" || Blank(name[0]) then "" else
      assert !HasBlank(name) ==> !HasBlank(name[1..]) by {
        assert forall i :: 0 <= i < |name[1..]| ==> name[1..][i] == name[i + 1];
      }
      [name[0]] + FirstWord(name[1..])
  }

  /** The words of a text, up to a comment. */
  function Words(s: string): (r: seq<string>)
    ensures forall w :: w in r ==> w != ""
    decreases |s|
  {
    if s == "" then []
    else if Blank(s[0]) then Words(s[1..])
    else if s[0] == '#' then []
    else [FirstWord(s)] + Words(s[|FirstWord(s)|..])
  }

  /** What the decoder is given as arguments when an unquoted name has blanks in it. */
  function Arguments(name: string): seq<string> {
    Words(name[|FirstWord(name)|..])
  }

  /** An argument that names a file to be decoded in place of the input. */
  predicate HasOperand(name: string) {
    exists w :: w in Arguments(name) && w[0] != '-'
  }

  predicate HasOption(name: string) {
    exists w :: w in Arguments(name) && w[0] == '-'
  }

  // ---------- What is copied ----------

  function ArchiveNames(files: set<DataFile>): set<string> {
    set f | f in files && f.payload.Bytes? && Nameable(Basename(f.name)) :: Basename(f.name)
  }

  /** A file some command writes: one without content needs no command. */
  predicate Echoed(f: DataFile) {
    f.payload.Bytes? && f.payload.size > 0 && Basename(f.name) != ""
  }

  /** Where the command writes it. */
  function Target(f: DataFile): string {
    FirstWord(Basename(f.name))
  }

  /** The files whose redirection names something that can be created. */
  function Creatable(files: set<DataFile>): set<DataFile> {
    set f | f in files && Echoed(f) && Nameable(Target(f))
  }

  function Targets(files: set<DataFile>): set<string> {
    set f | f in files :: Target(f)
  }

  function ShellNames(files: set<DataFile>): set<string> {
    Targets(Creatable(files))
  }

  /** Some name makes the shell do something else than write a file. */
  predicate Wild(files: set<DataFile>) {
    exists f :: f in files && Echoed(f) && HasOperator(Basename(f.name))
  }

  /** Every file that can be created was. */
  predicate AllCreated(files: set<DataFile>, how: Transfer) {
    how.Shell? ==> Creatable(files) <= how.created
  }

  predicate NoFailure(how: Transfer) {
    how.Shell? ==> how.failed == {}
  }

  predicate NothingFed(how: Transfer) {
    how.Shell? ==> how.fed == {}
  }

  function Entries(r: RequestId, names: set<string>): set<Entry> {
    set n | n in names :: Entry(n, r, true)
  }

  function Own(entries: set<Entry>, r: RequestId): set<Entry> {
    set e | e in entries && e.owner == r
  }

  /** What deleting the regular files leaves. */
  function Kept(entries: set<Entry>): set<Entry> {
    set e | e in entries && !e.regular
  }

  /** Entries that a request may leave in the directory: old ones or its own. */
  predicate OwnOrOld(r: RequestId, before: set<Entry>, after: set<Entry>) {
    forall e :: e in after ==> e in before || e.owner == r
  }

  /** What the directory may hold once the files of request r have gone through the archive or
      through all the commands. A command that succeeds has created its entry; one whose decoder
      is given the name of a file that is not there fails, after the entry has been created; a
      name with an operator in it may do anything. */
  ghost predicate Copied(r: RequestId, files: set<DataFile>, how: Transfer, before: set<Entry>, after: set<Entry>) {
    match how
    case Archive => after == before + Entries(r, ArchiveNames(files))
    case Shell(partial, created, failed, fed) =>
      if Wild(files) then OwnOrOld(r, before, after)
      else
        && partial <= ArchiveNames(files) && created <= Creatable(files)
        && (forall f :: f in files && Echoed(f) && f !in failed ==> f in created)
        && (forall f :: f in files && Echoed(f) && HasOperand(Basename(f.name)) ==> f in failed || f in fed)
        && after == before + Entries(r, partial + Targets(created))
  }

  lemma CopiedIsOwn(r: RequestId, files: set<DataFile>, how: Transfer, before: set<Entry>, after: set<Entry>)
    requires Copied(r, files, how, before, after)
    ensures OwnOrOld(r, before, after)
  {}

  // ---------- Whether a parquet file lands ----------

  /** The files bring a parquet file, by their names. */
  predicate Brings(files: set<DataFile>) {
    exists n :: n in ArchiveNames(files) && IsParquet(n)
  }

  /** The shell would write a parquet file. */
  predicate Echoes(files: set<DataFile>) {
    exists n :: n in ShellNames(files) && IsParquet(n)
  }

  /** Archive and shell agree on whether a parquet file lands: decided by names and sizes alone. */
  predicate Agrees(files: set<DataFile>) {
    Brings(files) <==> Echoes(files)
  }

  lemma HasEntry(r: RequestId, names: set<string>, entries: set<Entry>)
    requires Entries(r, names) <= entries && exists n :: n in names && IsParquet(n)
    ensures HasParquet(entries)
  {
    var n :| n in names && IsParquet(n);
    assert Entry(n, r, true) in entries;
  }

  /** What lands of its own files when nothing of its own was there before. */
  lemma LandedParquet(r: RequestId, files: set<DataFile>, how: Transfer, before: set<Entry>, after: set<Entry>)
    requires Copied(r, files, how, before, after) && Own(before, r) == {}
    ensures how.Archive? ==> (HasParquet(Own(after, r)) <==> Brings(files))
    ensures how.Shell? && AllCreated(files, how) && !Wild(files) && Echoes(files) ==> HasParquet(Own(after, r))
    ensures !Wild(files) && HasParquet(Own(after, r)) ==> Brings(files) || Echoes(files)
    ensures !Wild(files) && Agrees(files) && AllCreated(files, how) ==> (HasParquet(Own(after, r)) <==> Brings(files))
  {
    forall e | e in before ensures e.owner != r {
      assert e !in Own(before, r);
    }
    if how.Archive? && Brings(files) {
      HasEntry(r, ArchiveNames(files), Own(after, r));
    }
    if how.Shell? && !Wild(files) {
      assert how.created <= Creatable(files);
      assert Targets(how.created) <= ShellNames(files);
      if AllCreated(files, how) && Echoes(files) {
        assert how.created == Creatable(files);
        HasEntry(r, ShellNames(files), Own(after, r));
      }
    }
  }

  /** For files without operators in their names: every copy in which all that can be created is
      lands a parquet file exactly when the files bring one, if and only if archive and shell
      agree. */
  lemma ParquetExactly(r: RequestId, files: set<DataFile>)
    ensures !Wild(files) ==>
              ((forall how, after :: AllCreated(files, how) && Copied(r, files, how, {}, after)
                                     ==> (HasParquet(after) <==> Brings(files)))
               <==> Agrees(files))
  {
    if !Wild(files) {
      if Agrees(files) {
        forall how, after | AllCreated(files, how) && Copied(r, files, how, {}, after)
          ensures HasParquet(after) <==> Brings(files)
        {
          LandedParquet(r, files, how, {}, after);
          assert Own({}, r) == {};
          assert Own(after, r) == after by {
            CopiedIsOwn(r, files, how, {}, after);
          }
        }
      } else {
        var how, after := Misleading(r, files);
      }
    }
  }

  /** A command for the file always fails: it writes to no file, or its decoder is given the name
      of a file, and there is none. */
  predicate MustFail(f: DataFile) {
    Echoed(f) && (!Nameable(Target(f)) || HasOperand(Basename(f.name)))
  }

  /** The copy through the shell in which all that can be created is, and only what must fail does. */
  function Through(files: set<DataFile>): Transfer {
    Shell({}, Creatable(files), set f | f in files && MustFail(f), {})
  }

  lemma ThroughCopies(r: RequestId, files: set<DataFile>)
    requires !Wild(files)
    ensures Copied(r, files, Through(files), {}, Entries(r, ShellNames(files)))
    ensures AllCreated(files, Through(files))
  {
    assert {} + ShellNames(files) == ShellNames(files);
  }

  /** A copy that misleads, when archive and shell do not agree. */
  lemma Misleading(r: RequestId, files: set<DataFile>) returns (how: Transfer, after: set<Entry>)
    requires !Wild(files) && !Agrees(files)
    ensures how.Shell? && AllCreated(files, how) && Copied(r, files, how, {}, after)
    ensures HasParquet(after) != Brings(files)
  {
    how, after := Through(files), Entries(r, ShellNames(files));
    ThroughCopies(r, files);
    if Echoes(files) {
      HasEntry(r, ShellNames(files), after);
    }
  }

  /** Files with content and with names that need no quoting are safe. */
  lemma PlainFilesAgree(files: set<DataFile>)
    requires forall f :: f in files ==> Plain(f)
    ensures !Wild(files) && Agrees(files)
    ensures ArchiveNames(files) == ShellNames(files)
  {
    forall f | f in files
      ensures Echoed(f) <==> Basename(f.name) != ""
      ensures FirstWord(Basename(f.name)) == Basename(f.name)
    {
      assert Plain(f);
    }
    assert ArchiveNames(files) == ShellNames(files);
  }

  predicate Plain(f: DataFile) {
    && f.payload.Bytes? && f.payload.size > 0
    && !HasOperator(Basename(f.name)) && !HasBlank(Basename(f.name))
  }

  lemma BlankMisleads(word: string, rest: string, size: nat)
    requires size > 0 && '/' !in word && '/' !in rest
    requires IsParquet(word) && !HasBlank(word) && rest != "" && Blank(rest[0]) && !IsParquet(word + rest)
    requires !HasOperator(word + rest)
    ensures var files := {DataFile(word + rest, Bytes(size))}; !Wild(files) && Echoes(files) && !Brings(files)
  {
    var f := DataFile(word + rest, Bytes(size));
    FirstWordOf(word, rest);
    assert Basename(f.name) == f.name;
    hide FirstWord, Basename, IsParquet, HasBlank;
    ParquetIsNameable(word);
    assert f in Creatable({f});
    assert word in ShellNames({f});
  }

  lemma ParquetIsNameable(name: string)
    requires IsParquet(name)
    ensures Nameable(name)
  {}

  /** A file without content does not land through the shell. */
  lemma EmptyMisleads(name: string)
    requires '/' !in name && IsParquet(name)
    ensures var files := {DataFile(name, Bytes(0))}; Brings(files) && !Echoes(files)
  {
    assert Basename(name) == name;
    hide FirstWord, Basename, IsParquet;
    ParquetIsNameable(name);
    assert name in ArchiveNames({DataFile(name, Bytes(0))});
  }

  lemma {:induction false} FirstWordOf(word: string, rest: string)
    requires !HasBlank(word) && rest != "" && Blank(rest[0])
    ensures FirstWord(word + rest) == word
  {
    if word != "" {
      assert !Blank(word[0]);
      assert (word + rest)[1..] == word[1..] + rest;
      assert forall i :: 0 <= i < |word[1..]| ==> word[1..][i] == word[i + 1];
      FirstWordOf(word[1..], rest);
    } else {
      assert word + rest == rest;
    }
  }

  // ---------- Tables ----------

  predicate ValidRefs(refs: map<string, Payload>) {
    forall ref :: ref in refs ==> ref != "" && '/' !in ref && refs[ref].Bytes?
  }

  /** The file of each table. */
  function Tables(refs: map<string, Payload>): set<DataFile> {
    set ref | ref in refs :: DataFile(ref + PARQUET, refs[ref])
  }

  predicate AllTables(r: RequestId, refs: map<string, Payload>, entries: set<Entry>) {
    forall ref :: ref in refs ==> Entry(ref + PARQUET, r, true) in entries
  }

  /** Tables with content, under references that need no quoting. */
  predicate PlainRefs(refs: map<string, Payload>) {
    forall ref :: ref in refs ==>
      refs[ref].Bytes? && refs[ref].size > 0 && !HasOperator(ref + PARQUET) && !HasBlank(ref + PARQUET)
  }

  lemma TableName(ref: string)
    requires '/' !in ref
    ensures Basename(ref + PARQUET) == ref + PARQUET && Nameable(ref + PARQUET)
  {
    assert '/' !in PARQUET;
    assert |ref + PARQUET| >= 8;
  }

  /** Loading the tables through the shell cannot but raise. */
  predicate Raises(refs: map<string, Payload>) {
    exists f :: f in Tables(refs) && MustFail(f)
  }

  predicate NoOptions(refs: map<string, Payload>) {
    forall ref :: ref in refs ==> !HasOption(ref + PARQUET)
  }

  /** For references without operators, and without words the decoder could take for options: every
      copy in which no command fails puts every table in place, if and only if either some command
      always fails, so that only the archive is left, or all tables have content and plain
      references. The copies are those in which the decoder is given no file it can read. */
  lemma TablesExactly(r: RequestId, refs: map<string, Payload>)
    requires ValidRefs(refs)
    ensures !Wild(Tables(refs)) && NoOptions(refs) ==>
              ((forall how, after :: NoFailure(how) && NothingFed(how) && Copied(r, Tables(refs), how, {}, after)
                                     ==> AllTables(r, refs, after))
               <==> Raises(refs) || PlainRefs(refs))
  {
    if !Wild(Tables(refs)) {
      if Raises(refs) || PlainRefs(refs) {
        forall how, after | NoFailure(how) && NothingFed(how) && Copied(r, Tables(refs), how, {}, after)
          ensures AllTables(r, refs, after)
        {
          if PlainRefs(refs) {
            PlainTablesLand(r, refs, how, {}, after);
          } else {
            RaisesLeavesArchive(r, refs, how, after);
            ArchivedTablesLand(r, refs, {}, after);
          }
        }
      } else {
        var how, after := MissingTable(r, refs);
      }
    }
  }

  lemma RaisesLeavesArchive(r: RequestId, refs: map<string, Payload>, how: Transfer, after: set<Entry>)
    requires !Wild(Tables(refs)) && Raises(refs)
    requires NoFailure(how) && NothingFed(how) && Copied(r, Tables(refs), how, {}, after)
    ensures how.Archive?
  {
    var f :| f in Tables(refs) && MustFail(f);
    MustFailFails(r, Tables(refs), how, after, f);
  }

  lemma MustFailFails(r: RequestId, files: set<DataFile>, how: Transfer, after: set<Entry>, f: DataFile)
    requires !Wild(files) && Copied(r, files, how, {}, after) && f in files && MustFail(f)
    ensures how.Shell? ==> f in how.failed || f in how.fed
  {}

  /** A reference with a comment in it: no command fails, and another file lands. */
  lemma CommentMisses(r: RequestId, word: string, note: string, size: nat)
    requires size > 0 && '/' !in word && '/' !in note && Nameable(word) && !HasBlank(word)
    requires !HasOperator(word + (" #" + note) + PARQUET)
    ensures var refs := map[word + (" #" + note) := Bytes(size)];
            && ValidRefs(refs) && !Wild(Tables(refs)) && !Raises(refs)
            && Copied(r, Tables(refs), Shell({}, Tables(refs), {}, {}), {}, {Entry(word, r, true)})
            && !AllTables(r, refs, {Entry(word, r, true)})
  {
    hide *;
    CommentedFile(word, note, size);
    var f := DataFile(word + (" #" + note) + PARQUET, Bytes(size));
    OneCopied(r, f);
    CommentedTable(r, word, note, size);
  }

  lemma CommentedFile(word: string, note: string, size: nat)
    requires size > 0 && '/' !in word && '/' !in note && Nameable(word) && !HasBlank(word)
    requires !HasOperator(word + (" #" + note) + PARQUET)
    ensures var f := DataFile(word + (" #" + note) + PARQUET, Bytes(size));
            Echoed(f) && Target(f) == word && Nameable(word) && !HasOperator(Basename(f.name)) && Arguments(Basename(f.name)) == []
  {
    var ref := word + (" #" + note);
    CommentedRef(word, note);
    TableName(ref);
    CommentedName(word, note);
    hide FirstWord, Words, Basename, HasBlank, HasOperator, PARQUET, Arguments, Nameable;
  }

  lemma CommentedTable(r: RequestId, word: string, note: string, size: nat)
    requires '/' !in word && '/' !in note
    ensures var ref := word + (" #" + note);
            var refs := map[ref := Bytes(size)];
            var f := DataFile(ref + PARQUET, Bytes(size));
            && ValidRefs(refs) && Tables(refs) == {f} && (!MustFail(f) ==> !Raises(refs))
            && !AllTables(r, refs, {Entry(word, r, true)})
  {
    hide MustFail;
    var ref := word + (" #" + note);
    CommentedRef(word, note);
    hide PARQUET;
    OtherName(r, map[ref := Bytes(size)], ref, word);
  }

  lemma OtherName(r: RequestId, refs: map<string, Payload>, ref: string, name: string)
    requires ref in refs && ref + PARQUET != name
    ensures !AllTables(r, refs, {Entry(name, r, true)})
  {}

  lemma CommentedRef(word: string, note: string)
    requires '/' !in word && '/' !in note
    ensures var ref := word + (" #" + note); ref != "" && '/' !in ref && |ref + PARQUET| > |word|
  {}

  lemma OneCopied(r: RequestId, f: DataFile)
    requires Echoed(f) && Nameable(Target(f)) && !HasOperator(Basename(f.name)) && Arguments(Basename(f.name)) == []
    ensures !Wild({f}) && !MustFail(f)
    ensures Copied(r, {f}, Shell({}, {f}, {}, {}), {}, {Entry(Target(f), r, true)})
  {
    OneFile(f);
    hide *;
    ThroughCopies(r, {f});
    OneEntry(r, Target(f));
  }

  lemma OneFile(f: DataFile)
    requires Echoed(f) && Nameable(Target(f)) && !HasOperator(Basename(f.name)) && Arguments(Basename(f.name)) == []
    ensures !Wild({f}) && !MustFail(f)
    ensures ShellNames({f}) == {Target(f)} && Through({f}) == Shell({}, {f}, {}, {})
  {
    OneSound(f);
    hide *;
    OneCreatable(f);
    OneTarget(f);
    OneThrough(f);
  }

  lemma OneThrough(f: DataFile)
    requires Creatable({f}) == {f} && Targets({f}) == {Target(f)} && !MustFail(f)
    ensures ShellNames({f}) == {Target(f)} && Through({f}) == Shell({}, {f}, {}, {})
  {
    hide Creatable, Targets, MustFail, Target;
    assert (set g | g in {f} && MustFail(g)) == {};
  }

  lemma OneSound(f: DataFile)
    requires Nameable(Target(f)) && !HasOperator(Basename(f.name)) && Arguments(Basename(f.name)) == []
    ensures !Wild({f}) && !MustFail(f)
  {
    assert !HasOperand(Basename(f.name));
    hide Arguments, Target, Basename, HasOperator, HasOperand, Nameable;
  }

  lemma OneCreatable(f: DataFile)
    requires Echoed(f) && Nameable(Target(f))
    ensures Creatable({f}) == {f}
  {
    hide Echoed, Nameable, Target;
  }

  lemma OneTarget(f: DataFile)
    ensures Targets({f}) == {Target(f)}
  {
    hide Target;
  }

  lemma OneEntry(r: RequestId, name: string)
    ensures Entries(r, {name}) == {Entry(name, r, true)}
  {}

  lemma CommentedName(word: string, note: string)
    requires !HasBlank(word)
    ensures var name := word + (" #" + note) + PARQUET;
            FirstWord(name) == word && Arguments(name) == []
  {
    var tail := " #" + note + PARQUET;
    var name := word + (" #" + note) + PARQUET;
    assert name == word + tail;
    FirstWordOf(word, tail);
    assert name[|word|..] == tail;
    assert tail[1..][0] == '#';
    hide FirstWord;
    assert Words(tail) == Words(tail[1..]) == [];
  }

  /** A table without content: no command runs, and nothing lands. */
  lemma EmptyTableMisses(r: RequestId, ref: string)
    requires ref != "" && '/' !in ref
    ensures var refs := map[ref := Bytes(0)];
            && ValidRefs(refs) && !Wild(Tables(refs)) && !Raises(refs)
            && Copied(r, Tables(refs), Shell({}, {}, {}, {}), {}, {})
            && !AllTables(r, refs, {})
  {
    var refs := map[ref := Bytes(0)];
    assert ref in refs;
    assert Targets({}) == {};
  }

  lemma PlainTablesLand(r: RequestId, refs: map<string, Payload>, how: Transfer, before: set<Entry>, after: set<Entry>)
    requires ValidRefs(refs) && PlainRefs(refs) && NoFailure(how) && Copied(r, Tables(refs), how, before, after)
    ensures AllTables(r, refs, after)
  {
    forall f | f in Tables(refs) ensures Basename(f.name) == f.name && !HasOperator(f.name) {
      var ref :| ref in refs && f == DataFile(ref + PARQUET, refs[ref]);
      TableName(ref);
    }
    assert !Wild(Tables(refs));
    hide Basename, HasOperator, HasBlank, FirstWord, IsParquet, PARQUET, HasOperand, Wild, Arguments;
    forall ref | ref in refs ensures Entry(ref + PARQUET, r, true) in after {
      var f := DataFile(ref + PARQUET, refs[ref]);
      TableName(ref);
      assert f in Tables(refs);
      assert if how.Archive? then f.name in ArchiveNames(Tables(refs)) else f in how.created && f.name in Targets(how.created);
    }
  }

  /** An archive puts every table in place. */
  lemma ArchivedTablesLand(r: RequestId, refs: map<string, Payload>, before: set<Entry>, after: set<Entry>)
    requires ValidRefs(refs) && Copied(r, Tables(refs), Archive, before, after)
    ensures AllTables(r, refs, after)
  {
    hide Basename, HasOperator, HasBlank, FirstWord, IsParquet, PARQUET;
    forall ref | ref in refs ensures Entry(ref + PARQUET, r, true) in after {
      TableName(ref);
      assert DataFile(ref + PARQUET, refs[ref]) in Tables(refs);
      assert ref + PARQUET in ArchiveNames(Tables(refs));
    }
  }

  lemma MissingTable(r: RequestId, refs: map<string, Payload>) returns (how: Transfer, after: set<Entry>)
    requires ValidRefs(refs) && !PlainRefs(refs) && !Raises(refs) && !Wild(Tables(refs))
    ensures NoFailure(how) && NothingFed(how) && Copied(r, Tables(refs), how, {}, after) && !AllTables(r, refs, after)
  {
    how, after := Through(Tables(refs)), Entries(r, ShellNames(Tables(refs)));
    ThroughCopies(r, Tables(refs));
    var missing := NotWritten(refs);
    assert Entry(missing + PARQUET, r, true) !in after;
  }

  lemma SameRef(a: string, b: string)
    ensures a + PARQUET == b + PARQUET <==> a == b
  {
    if a + PARQUET == b + PARQUET {
      assert |a| == |b|;
      assert a == (a + PARQUET)[..|a|];
      assert b == (b + PARQUET)[..|b|];
    }
  }

  lemma NotWritten(refs: map<string, Payload>) returns (missing: string)
    requires ValidRefs(refs) && !PlainRefs(refs) && !Wild(Tables(refs))
    ensures missing in refs && missing + PARQUET !in ShellNames(Tables(refs))
  {
    hide PARQUET;
    if ref :| ref in refs && HasBlank(ref + PARQUET) {
      return ref;
    }
    missing :| missing in refs && !(refs[missing].size > 0 && !HasOperator(missing + PARQUET));
    TableName(missing);
    var f := DataFile(missing + PARQUET, refs[missing]);
    assert f in Tables(refs) && !Echoed(f);
    forall g | g in Tables(refs) && Echoed(g) ensures FirstWord(Basename(g.name)) != missing + PARQUET {
      var ref :| ref in refs && g == DataFile(ref + PARQUET, refs[ref]);
      TableName(ref);
      SameRef(ref, missing);
    }
  }
}
