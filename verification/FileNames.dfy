/** What the names of data files and tables mean to a directory listing and to the shell
    (app/services/sandbox_execution.py). */
module FileNames {
  import opened Basics
  import opened DataFiles

  /** Listing `*.parquet` matches a name that has something before the ending and does not start
      with a dot. */
  lemma ParquetNames(name: string)
    ensures IsParquet(name) <==> exists stem :: stem != "" && stem[0] != '.' && name == stem + ".parquet"
  {
    if IsParquet(name) {
      var stem := name[..|name| - |".parquet"|];
      assert name == stem + ".parquet";
      assert name[0] == if stem == "" then '.' else stem[0];
    }
  }

  /** The characters an unquoted word cannot hold. */
  lemma OperatorsExactly(name: string)
    ensures HasOperator(name)
            <==> exists c :: c in name && c in {'\n', '|', '&', ';', '<', '>', '(', ')', '$', '`', '\\', '"', '\''}
  {
    forall c: char
      ensures Operator(c) <==> c in {'\n', '|', '&', ';', '<', '>', '(', ')', '$', '`', '\\', '"', '\''}
    {
      SpecialCharacter(c);
    }
    hide Operator;
    if HasOperator(name) {
      var i :| 0 <= i < |name| && Operator(name[i]);
      assert name[i] in name;
    }
  }

  lemma SpecialCharacter(c: char)
    ensures Operator(c) <==> c in {'\n', '|', '&', ';', '<', '>', '(', ')', '$', '`', '\\', '"', '\''}
  {
    var all := "\n|&;<>()$`\\\"'";
    assert all[0] == '\n' && all[1] == '|' && all[2] == '&' && all[3] == ';' && all[4] == '<' && all[5] == '>';
    assert all[6] == '(' && all[7] == ')' && all[8] == '$' && all[9] == '`' && all[10] == '\\' && all[11] == '"' && all[12] == '\'';
  }

  predicate AllBlanks(s: string) {
    forall i :: 0 <= i < |s| ==> s[i] == ' ' || s[i] == '\t'
  }

  predicate NoBlanks(s: string) {
    forall i :: 0 <= i < |s| ==> s[i] != ' ' && s[i] != '\t'
  }

  /** No blank in it, and not the beginning of a comment. */
  predicate IsWord(s: string) {
    s != "" && s[0] != '#' && NoBlanks(s)
  }

  /** Nothing more, or a blank first. */
  predicate Ended(s: string) {
    s != "" ==> s[0] == ' ' || s[0] == '\t'
  }

  lemma {:induction false} BlanksSkipped(lead: string, s: string)
    requires AllBlanks(lead)
    ensures Words(lead + s) == Words(s)
  {
    if lead == "" {
      assert lead + s == s;
    } else {
      assert (lead + s)[1..] == lead[1..] + s;
      BlanksSkipped(lead[1..], s);
    }
  }

  lemma {:induction false} WordTaken(word: string, tail: string)
    requires NoBlanks(word) && Ended(tail)
    ensures FirstWord(word + tail) == word
  {
    if word == "" {
      assert word + tail == tail;
    } else {
      assert (word + tail)[1..] == word[1..] + tail;
      WordTaken(word[1..], tail);
      assert [word[0]] + word[1..] == word;
    }
  }

  /** How the shell cuts the rest of a command into words: at blanks, up to a comment. */
  lemma WordsExactly(lead: string, word: string, tail: string, note: string)
    requires AllBlanks(lead) && IsWord(word) && Ended(tail)
    ensures Words(lead) == []
    ensures Words(lead + (word + tail)) == [word] + Words(tail)
    ensures Words(lead + ("#" + note)) == []
  {
    hide FirstWord;
    BlanksSkipped(lead, "");
    assert lead + "" == lead;
    BlanksSkipped(lead, word + tail);
    WordTaken(word, tail);
    assert (word + tail)[0] == word[0] && (word + tail)[|word|..] == tail;
    BlanksSkipped(lead, "#" + note);
    assert ("#" + note)[0] == '#';
  }

  /** Content that does not decode lands neither way. */
  lemma UndecodableNeverLands(f: DataFile)
    requires !f.payload.Bytes?
    ensures ArchiveNames({f}) == {} && ShellNames({f}) == {}
  {
    assert Creatable({f}) == {};
  }

  lemma SecondWordIsOperand(word: string, more: string)
    requires IsWord(word) && IsWord(more) && more[0] != '-'
    ensures HasOperand(word + (" " + more))
  {
    var name := word + (" " + more);
    WordTaken(word, " " + more);
    assert name[|word|..] == " " + (more + "");
    hide FirstWord, Words;
    WordsExactly(" ", more, "", "");
    assert Arguments(name)[0] == more;
  }

  /** A reference of two words: the second is taken for the name of a file to decode, and loading
      the table through the shell cannot but raise. */
  lemma SecondWordRaises(word: string, more: string, size: nat)
    requires size > 0 && IsWord(word) && IsWord(more) && '/' !in word && '/' !in more && more[0] != '-'
    ensures Raises(map[word + (" " + more) := Bytes(size)])
  {
    var ref := word + (" " + more);
    var name := ref + PARQUET;
    assert name == word + (" " + (more + PARQUET));
    NoSlash(name);
    SecondWordIsOperand(word, more + PARQUET);
    hide HasOperand, Basename, Target, PARQUET;
    var f := DataFile(name, Bytes(size));
    assert MustFail(f);
    TheTable(ref, size);
  }

  lemma TheTable(ref: string, size: nat)
    ensures DataFile(ref + PARQUET, Bytes(size)) in Tables(map[ref := Bytes(size)])
  {
    var refs := map[ref := Bytes(size)];
    assert ref in refs;
  }

  lemma {:induction false} NoSlash(name: string)
    requires '/' !in name
    ensures Basename(name) == name
  {}
}
