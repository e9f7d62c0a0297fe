/** Mailbox creation and deletion as edits of two text files, the Dovecot users file and the Postfix
    vmailbox file (agent/internal/operations/mail.go). A file is None while it does not exist. File and
    postmap failures are parameters; a failed file operation leaves the file as it was. */
module Mail {
  import opened Text

  type File = Option<string>

  function Content(f: File): string {
    if f.Some? then f.value else ""
  }

  function NonEmpty(lines: seq<string>): seq<string> {
    if lines == [] then []
    else if lines[0] == "" then NonEmpty(lines[1..])
    else [lines[0]] + NonEmpty(lines[1..])
  }

  /** The lines that do not start with `prefix`. */
  function Without(lines: seq<string>, prefix: string): seq<string> {
    if lines == [] then []
    else if HasPrefix(lines[0], prefix) then Without(lines[1..], prefix)
    else [lines[0]] + Without(lines[1..], prefix)
  }

  /** Every line followed by a line feed. */
  function Unlines(lines: seq<string>): string {
    if lines == [] then "" else lines[0] + "\n" + Unlines(lines[1..])
  }

  /** The non-empty lines of a text. */
  function Lines(content: string): seq<string> {
    NonEmpty(Split(content, '\n'))
  }

  function Append(f: File, text: string): File {
    Some(Content(f) + text)
  }

  function Rewritten(content: string, prefix: string): string {
    var joined := Join(Without(Lines(content), prefix), '\n');
    if joined != "" && !HasSuffix(joined, "\n") then joined + "\n" else joined
  }

  function RemoveLinePrefix(f: File, prefix: string): File {
    if f.None? then None else Some(Rewritten(f.value, prefix))
  }

  datatype Files = Files(dovecot: File, vmailbox: File)

  /** What goes wrong in one call, if anything. */
  datatype Fault = NoFault | DovecotFails | VmailboxFails | PostmapFails

  datatype Op = Create(address: string, passwordHash: string) | Delete(address: string)

  function DovecotEntry(address: string, passwordHash: string): string {
    address + ":" + passwordHash + "::::::"
  }

  /** What stands between the first and the second at sign, a slash, what stands before the first, a slash. */
  function MailboxPath(address: string): string
    requires '@' in address
  {
    SplitTwo(address, '@');
    Split(address, '@')[1] + "/" + Split(address, '@')[0] + "/"
  }

  function VmailboxEntry(address: string): string
    requires '@' in address
  {
    address + " " + MailboxPath(address)
  }

  /** An ordinary address gets the path domain/local/; what follows a second at sign does not count. */
  lemma MailboxPathOf(local: string, domain: string, rest: string)
    requires '@' !in local && '@' !in domain && (rest == "" || rest[0] == '@')
    ensures MailboxPath(local + "@" + domain + rest) == domain + "/" + local + "/"
  {
    SplitFree(local, '@');
    SplitFree(domain, '@');
    SplitConcat(local, domain, '@');
    if rest == "" {
      assert local + "@" + domain + rest == local + ['@'] + domain;
    } else {
      SplitConcat(local + ['@'] + domain, rest[1..], '@');
      assert local + "@" + domain + rest == local + ['@'] + domain + ['@'] + rest[1..];
    }
  }

  /** Local part and domain hold no at sign, and what follows, if anything, starts with one. */
  predicate SplitsAt(local: string, domain: string, rest: string) {
    '@' !in local && '@' !in domain && (rest == "" || rest[0] == '@')
  }

  /** The two lines a create appends. */
  lemma EntryLines(
      text: string, address: string, passwordHash: string, local: string, domain: string, rest: string)
    ensures text + (DovecotEntry(address, passwordHash) + "\n") == text + address + ":" + passwordHash + "::::::\n"
    ensures address == local + "@" + domain + rest && SplitsAt(local, domain, rest) ==>
              text + (VmailboxEntry(address) + "\n") == text + address + " " + domain + "/" + local + "/\n"
  {
    if address == local + "@" + domain + rest && SplitsAt(local, domain, rest) {
      MailboxPathOf(local, domain, rest);
    }
  }

  function Perform(s: Files, op: Op, fault: Fault): Files {
    if '@' !in op.address || fault.DovecotFails? then s
    else
      match op
      case Create(address, hash) =>
        Files(Append(s.dovecot, DovecotEntry(address, hash) + "\n"),
              if fault.VmailboxFails? then s.vmailbox else Append(s.vmailbox, VmailboxEntry(address) + "\n"))
      case Delete(address) =>
        Files(RemoveLinePrefix(s.dovecot, address + ":"),
              if fault.VmailboxFails? then s.vmailbox else RemoveLinePrefix(s.vmailbox, address + " "))
  }

  predicate Succeeds(op: Op, fault: Fault) {
    '@' in op.address && fault.NoFault?
  }

  class MailStore {
    var dovecot: File
    var vmailbox: File

    constructor (dovecot: File, vmailbox: File)
      ensures State() == Files(dovecot, vmailbox)
    {
      this.dovecot, this.vmailbox := dovecot, vmailbox;
    }

    function State(): Files
      reads this
    {
      Files(dovecot, vmailbox)
    }

    method HandleCreateMailbox(address: string, passwordHash: string, fault: Fault) returns (ok: bool)
      modifies this
      ensures ok <==> '@' in address && fault.NoFault?
      ensures '@' !in address || fault.DovecotFails? ==> dovecot == old(dovecot) && vmailbox == old(vmailbox)
      ensures fault.VmailboxFails? ==> vmailbox == old(vmailbox)
      ensures '@' in address && !fault.DovecotFails? ==>
                dovecot == Some(Content(old(dovecot)) + address + ":" + passwordHash + "::::::\n")
      ensures forall local, domain, rest |
                address == local + "@" + domain + rest && SplitsAt(local, domain, rest)
                && (fault.NoFault? || fault.PostmapFails?) ::
                vmailbox == Some(Content(old(vmailbox)) + address + " " + domain + "/" + local + "/\n")
      ensures State() == Perform(old(State()), Create(address, passwordHash), fault)
      ensures ok == Succeeds(Create(address, passwordHash), fault)
    {
      if '@' !in address || fault.DovecotFails? {
        return false;
      }
      EntryLines(Content(dovecot), address, passwordHash, "", "", "");
      dovecot := Append(dovecot, DovecotEntry(address, passwordHash) + "\n");
      if fault.VmailboxFails? {
        return false;
      }
      SplitTwo(address, '@');
      var domain := Split(address, '@')[1];
      var mailboxPath := domain + "/" + Split(address, '@')[0] + "/";
      assert address + " " + mailboxPath == VmailboxEntry(address);
      forall local, domain, rest | address == local + "@" + domain + rest && SplitsAt(local, domain, rest)
        ensures Content(vmailbox) + (VmailboxEntry(address) + "\n")
                == Content(vmailbox) + address + " " + domain + "/" + local + "/\n"
      {
        EntryLines(Content(vmailbox), address, passwordHash, local, domain, rest);
      }
      vmailbox := Append(vmailbox, address + " " + mailboxPath + "\n");
      ok := !fault.PostmapFails?;
    }

    method HandleDeleteMailbox(address: string, fault: Fault) returns (ok: bool)
      modifies this
      ensures ok <==> '@' in address && fault.NoFault?
      ensures '@' !in address || fault.DovecotFails? ==> dovecot == old(dovecot) && vmailbox == old(vmailbox)
      ensures fault.VmailboxFails? ==> vmailbox == old(vmailbox)
      ensures '@' in address && !fault.DovecotFails? ==> dovecot == RemoveLinePrefix(old(dovecot), address + ":")
      ensures '@' in address && (fault.NoFault? || fault.PostmapFails?) ==>
                vmailbox == RemoveLinePrefix(old(vmailbox), address + " ")
      ensures State() == Perform(old(State()), Delete(address), fault)
      ensures ok == Succeeds(Delete(address), fault)
    {
      if '@' !in address || fault.DovecotFails? {
        return false;
      }
      dovecot := RewriteFile(dovecot, address + ":");
      if fault.VmailboxFails? {
        return false;
      }
      vmailbox := RewriteFile(vmailbox, address + " ");
      ok := !fault.PostmapFails?;
    }
  }

  /** Drops every line with the given prefix and every empty line. */
  method RewriteFile(f: File, prefix: string) returns (f': File)
    ensures f' == RemoveLinePrefix(f, prefix)
  {
    if f.None? {
      return None;
    }
    var lines := Split(f.value, '\n');
    var newLines: seq<string> := [];
    for i := 0 to |lines|
      invariant newLines + Without(NonEmpty(lines[i..]), prefix) == Without(NonEmpty(lines), prefix)
    {
      var line := lines[i];
      assert lines[i..][1..] == lines[i + 1..];
      FirstLine(lines[i..], prefix);
      if !HasPrefix(line, prefix) && line != "" {
        newLines := newLines + [line];
      }
    }
    assert newLines == Without(Lines(f.value), prefix);
    var newContent := Join(newLines, '\n');
    if newContent != "" && !HasSuffix(newContent, "\n") {
      newContent := newContent + "\n";
    }
    f' := Some(newContent);
  }

  lemma FirstLine(lines: seq<string>, prefix: string)
    requires lines != []
    ensures Without(NonEmpty(lines), prefix)
            == if !HasPrefix(lines[0], prefix) && lines[0] != ""
               then [lines[0]] + Without(NonEmpty(lines[1..]), prefix)
               else Without(NonEmpty(lines[1..]), prefix)
  {
    if lines[0] != "" {
      assert NonEmpty(lines)[1..] == NonEmpty(lines[1..]);
    }
  }

  // ---- Texts and their lines ----

  /** Empty, or ending with a line feed. */
  predicate Terminated(content: string) {
    content == "" || content[|content| - 1] == '\n'
  }

  /** Proper lines: not empty and without a line feed. */
  ghost predicate ProperLines(lines: seq<string>) {
    forall i | 0 <= i < |lines| :: lines[i] != "" && '\n' !in lines[i]
  }

  lemma {:induction false} NonEmptyConcat(a: seq<string>, b: seq<string>)
    ensures NonEmpty(a + b) == NonEmpty(a) + NonEmpty(b)
  {
    if a == [] {
      assert a + b == b;
    } else {
      assert (a + b)[1..] == a[1..] + b;
      NonEmptyConcat(a[1..], b);
    }
  }

  lemma {:induction false} NonEmptyKeeps(lines: seq<string>)
    requires Free(lines, '\n')
    ensures ProperLines(NonEmpty(lines))
    ensures ProperLines(lines) ==> NonEmpty(lines) == lines
  {
    if lines != [] {
      NonEmptyKeeps(lines[1..]);
      assert lines == [lines[0]] + lines[1..];
      assert Free(lines[1..], '\n');
    }
  }

  lemma LinesAreProper(content: string)
    ensures ProperLines(Lines(content))
  {
    SplitPartsFree(content, '\n');
    NonEmptyKeeps(Split(content, '\n'));
  }

  lemma {:induction false} WithoutIsProper(lines: seq<string>, prefix: string)
    requires ProperLines(lines)
    ensures ProperLines(Without(lines, prefix))
  {
    if lines != [] {
      WithoutIsProper(lines[1..], prefix);
    }
  }

  /** Appending a line to a terminated text appends it to the lines. */
  lemma LinesAppend(content: string, line: string)
    requires Terminated(content) && line != "" && '\n' !in line
    ensures Lines(content + (line + "\n")) == Lines(content) + [line]
    ensures Terminated(content + (line + "\n"))
  {
    var text := content + (line + "\n");
    SplitConcat(line, "", '\n');
    SplitFree(line, '\n');
    assert line + ['\n'] + "" == line + "\n";
    assert Split(line + "\n", '\n') == [line, ""];
    assert [line, ""][1..] == [""] && [""][1..] == [];
    assert NonEmpty([""]) == [];
    assert NonEmpty([line, ""]) == [line] + NonEmpty([""]);
    if content == "" {
      assert text == line + "\n";
    } else {
      var body := content[..|content| - 1];
      assert content == body + ['\n'];
      SplitConcat(body, line + "\n", '\n');
      assert text == body + ['\n'] + (line + "\n");
      SplitConcat(body, "", '\n');
      assert content == body + ['\n'] + "";
      NonEmptyConcat(Split(body, '\n'), [line, ""]);
      NonEmptyConcat(Split(body, '\n'), [""]);
    }
  }

  lemma {:induction false} UnlinesTerminated(lines: seq<string>)
    ensures Terminated(Unlines(lines))
    ensures lines != [] && lines[0] != "" ==> Unlines(lines) != ""
  {
    if lines != [] {
      UnlinesTerminated(lines[1..]);
    }
  }

  lemma {:induction false} LinesUnlines(lines: seq<string>)
    requires ProperLines(lines)
    ensures Lines(Unlines(lines)) == lines
  {
    if lines == [] {
    } else {
      var rest := Unlines(lines[1..]);
      LinesUnlines(lines[1..]);
      SplitConcat(lines[0], rest, '\n');
      SplitFree(lines[0], '\n');
      assert Unlines(lines) == lines[0] + ['\n'] + rest;
      NonEmptyConcat([lines[0]], Split(rest, '\n'));
      assert NonEmpty([lines[0]]) == [lines[0]];
      assert lines == [lines[0]] + lines[1..];
    }
  }

  lemma {:induction false} JoinOfProper(lines: seq<string>)
    requires ProperLines(lines) && lines != []
    ensures Join(lines, '\n') != "" && !HasSuffix(Join(lines, '\n'), "\n")
    ensures Join(lines, '\n') + "\n" == Unlines(lines)
  {
    if |lines| == 1 {
      assert Unlines(lines[1..]) == "";
      var text := lines[0];
      assert text[|text| - 1] in text;
    } else {
      JoinOfProper(lines[1..]);
      var rest, whole := Join(lines[1..], '\n'), Join(lines, '\n');
      assert whole == lines[0] + ['\n'] + rest;
      assert whole[|whole| - 1] == rest[|rest| - 1];
      assert rest[|rest| - 1..] == [rest[|rest| - 1]];
      assert whole[|whole| - 1..] == [rest[|rest| - 1]];
    }
  }

  /** A rewritten file is exactly its remaining lines, each followed by a line feed. */
  lemma RewrittenIsUnlines(content: string, prefix: string)
    ensures Rewritten(content, prefix) == Unlines(Without(Lines(content), prefix))
    ensures Terminated(Rewritten(content, prefix))
    ensures Lines(Rewritten(content, prefix)) == Without(Lines(content), prefix)
  {
    var kept := Without(Lines(content), prefix);
    LinesAreProper(content);
    WithoutIsProper(Lines(content), prefix);
    if kept != [] {
      JoinOfProper(kept);
    }
    UnlinesTerminated(kept);
    LinesUnlines(kept);
  }

  lemma {:induction false} KeptCount(lines: seq<string>, prefix: string, line: string)
    ensures multiset(Without(NonEmpty(lines), prefix))[line]
            == if line == "" || (|prefix| <= |line| && line[..|prefix|] == prefix) then 0 else multiset(lines)[line]
  {
    if lines != [] {
      FirstLine(lines, prefix);
      KeptCount(lines[1..], prefix, line);
      assert lines == [lines[0]] + lines[1..];
    }
  }

  /** What a removal keeps: a missing file stays missing; otherwise every line of the text that is not empty and
      does not start with the prefix, as often as it was there, and no other line. */
  lemma RemovalKeeps(f: File, prefix: string, line: string)
    ensures f.None? <==> RemoveLinePrefix(f, prefix).None?
    ensures f.Some? ==>
              multiset(Lines(RemoveLinePrefix(f, prefix).value))[line]
              == if line == "" || (|prefix| <= |line| && line[..|prefix|] == prefix) then 0
                 else multiset(Split(f.value, '\n'))[line]
  {
    if f.Some? {
      RewrittenIsUnlines(f.value, prefix);
      KeptCount(Split(f.value, '\n'), prefix, line);
    }
  }

  // ---- Addresses ----

  /** What stands before the first `sep` of a line. */
  function Key(line: string, sep: char): string {
    if line == "" || line[0] == sep then "" else [line[0]] + Key(line[1..], sep)
  }

  function Keys(lines: seq<string>, sep: char): seq<string> {
    if lines == [] then [] else [Key(lines[0], sep)] + Keys(lines[1..], sep)
  }

  function Drop(keys: seq<string>, key: string): seq<string> {
    if keys == [] then []
    else if keys[0] == key then Drop(keys[1..], key)
    else [keys[0]] + Drop(keys[1..], key)
  }

  /** The addresses a file lists, in order. */
  function Addresses(f: File, sep: char): seq<string> {
    Keys(Lines(Content(f)), sep)
  }

  predicate Clean(address: string) {
    '\n' !in address && ':' !in address && ' ' !in address
  }

  /** A key followed by its separator is a prefix of exactly the lines filed under that key, even when one
      key is a prefix of another. */
  lemma {:induction false} PrefixIffKey(line: string, key: string, sep: char)
    requires sep !in key
    ensures HasPrefix(line, key + [sep]) <==> sep in line && Key(line, sep) == key
  {
    if key == "" {
      assert key + [sep] == [sep];
      if line != "" {
        assert line[..1] == [line[0]];
      }
    } else if line != "" {
      PrefixIffKey(line[1..], key[1..], sep);
      var prefix := key + [sep];
      assert prefix[1..] == key[1..] + [sep];
      if |prefix| <= |line| {
        assert line[..|prefix|] == [line[0]] + line[1..][..|prefix| - 1];
        assert prefix == [key[0]] + prefix[1..];
      }
      if line[0] == sep {
        assert Key(line, sep) == "";
      } else {
        assert sep in line <==> sep in line[1..] by {
          assert line == [line[0]] + line[1..];
        }
        assert key == [key[0]] + key[1..];
        assert Key(line, sep)[1..] == Key(line[1..], sep);
      }
    }
  }

  ghost predicate Filed(lines: seq<string>, sep: char) {
    forall i | 0 <= i < |lines| :: sep in lines[i]
  }

  lemma {:induction false} KeysAfterRemoval(lines: seq<string>, key: string, sep: char)
    requires sep !in key && Filed(lines, sep)
    ensures Keys(Without(lines, key + [sep]), sep) == Drop(Keys(lines, sep), key)
    ensures Filed(Without(lines, key + [sep]), sep)
  {
    if lines != [] {
      var rest := Without(lines[1..], key + [sep]);
      KeysAfterRemoval(lines[1..], key, sep);
      PrefixIffKey(lines[0], key, sep);
      assert Keys(lines, sep)[1..] == Keys(lines[1..], sep);
      if !HasPrefix(lines[0], key + [sep]) {
        assert Without(lines, key + [sep])[1..] == rest;
      }
    }
  }

  lemma {:induction false} KeysAppend(lines: seq<string>, line: string, sep: char)
    ensures Keys(lines + [line], sep) == Keys(lines, sep) + [Key(line, sep)]
  {
    if lines == [] {
      assert lines + [line] == [line];
    } else {
      assert (lines + [line])[1..] == lines[1..] + [line];
      KeysAppend(lines[1..], line, sep);
    }
  }

  /** An address that holds its separator is filed under what stands before it. */
  lemma {:induction false} KeyOfText(key: string, rest: string, sep: char)
    ensures Key(key + [sep] + rest, sep) == Key(key, sep) <= key
    ensures sep !in key <==> Key(key, sep) == key
    ensures sep in key ==> key[|Key(key, sep)|] == sep
  {
    if key != "" {
      KeyOfText(key[1..], rest, sep);
      assert (key + [sep] + rest)[1..] == key[1..] + [sep] + rest;
      assert key == [key[0]] + key[1..];
    }
  }

  /** A file whose every line has a separator, and whose last line is ended. */
  ghost predicate WellFormed(f: File, sep: char) {
    Terminated(Content(f)) && Filed(Lines(Content(f)), sep)
  }

  /** Both files well formed and listing the same addresses in the same order, repetitions included. */
  ghost predicate Aligned(s: Files) {
    WellFormed(s.dovecot, ':') && WellFormed(s.vmailbox, ' ')
    && Addresses(s.dovecot, ':') == Addresses(s.vmailbox, ' ')
  }

  predicate CleanOp(op: Op) {
    Clean(op.address) && (op.Create? ==> '\n' !in op.passwordHash)
  }

  lemma AppendEntry(f: File, key: string, rest: string, sep: char)
    requires WellFormed(f, sep) && '\n' !in key && '\n' !in rest && sep != '\n'
    ensures var f' := Append(f, key + [sep] + rest + "\n");
            WellFormed(f', sep) && Addresses(f', sep) == Addresses(f, sep) + [Key(key, sep)]
  {
    var line := key + [sep] + rest;
    LinesAppend(Content(f), line);
    assert Content(f) + (line + "\n") == Content(f) + (key + [sep] + rest + "\n");
    KeysAppend(Lines(Content(f)), line, sep);
    KeyOfText(key, rest, sep);
  }

  lemma RemoveEntries(f: File, key: string, sep: char)
    requires WellFormed(f, sep) && sep !in key
    ensures var f' := RemoveLinePrefix(f, key + [sep]);
            WellFormed(f', sep) && Addresses(f', sep) == Drop(Addresses(f, sep), key)
  {
    if f.Some? {
      RewrittenIsUnlines(f.value, key + [sep]);
      KeysAfterRemoval(Lines(f.value), key, sep);
    }
  }

  lemma {:induction false} PartsWithin(s: string, sep: char, c: char)
    requires c !in s
    ensures Free(Split(s, sep), c)
  {
    if s != "" {
      PartsWithin(s[1..], sep, c);
    }
  }

  /** Both entries start with the address and its separator. */
  lemma EntriesByKey(address: string, passwordHash: string)
    requires '@' in address && '\n' !in address
    ensures DovecotEntry(address, passwordHash) + "\n" == address + [':'] + (passwordHash + "::::::") + "\n"
    ensures VmailboxEntry(address) + "\n" == address + [' '] + MailboxPath(address) + "\n"
    ensures '\n' !in MailboxPath(address)
  {
    SplitTwo(address, '@');
    PartsWithin(address, '@', '\n');
  }

  function Effect(addresses: seq<string>, op: Op): seq<string> {
    match op
    case Create(address, _) => addresses + [address]
    case Delete(address) => Drop(addresses, address)
  }

  /** What a call without a file failure does to the two address lists: a create appends, a delete drops
      every occurrence and nothing else. */
  lemma PerformOnAddresses(s: Files, op: Op, fault: Fault)
    requires WellFormed(s.dovecot, ':') && WellFormed(s.vmailbox, ' ') && CleanOp(op)
    requires '@' in op.address && (fault.NoFault? || fault.PostmapFails?)
    ensures var s' := Perform(s, op, fault);
            && WellFormed(s'.dovecot, ':') && WellFormed(s'.vmailbox, ' ')
            && Addresses(s'.dovecot, ':') == Effect(Addresses(s.dovecot, ':'), op)
            && Addresses(s'.vmailbox, ' ') == Effect(Addresses(s.vmailbox, ' '), op)
  {
    match op
    case Create(address, hash) =>
      EntriesByKey(address, hash);
      KeyOfText(address, "", ':');
      KeyOfText(address, "", ' ');
      AppendEntry(s.dovecot, address, hash + "::::::", ':');
      AppendEntry(s.vmailbox, address, MailboxPath(address), ' ');
    case Delete(address) =>
      assert address + ":" == address + [':'] && address + " " == address + [' '];
      RemoveEntries(s.dovecot, address, ':');
      RemoveEntries(s.vmailbox, address, ' ');
  }

  // ---- Whole runs ----

  function Run(s: Files, ops: seq<(Op, Fault)>): Files
    decreases ops
  {
    if ops == [] then s else Run(Perform(s, ops[0].0, ops[0].1), ops[1..])
  }

  /** The files stay aligned: over any run in which no vmailbox write fails, both files list the same
      addresses, order and multiplicity included. */
  lemma {:induction false} FilesStayAligned(s: Files, ops: seq<(Op, Fault)>)
    requires Aligned(s)
    requires forall i | 0 <= i < |ops| :: CleanOp(ops[i].0) && !ops[i].1.VmailboxFails?
    ensures Aligned(Run(s, ops))
    decreases ops
  {
    if ops != [] {
      var (op, fault) := ops[0];
      if '@' in op.address && !fault.DovecotFails? {
        PerformOnAddresses(s, op, fault);
      }
      FilesStayAligned(Perform(s, op, fault), ops[1..]);
    }
  }

  /** Starting without files, the files are aligned after any such run. */
  lemma FilesAlignFromNothing(ops: seq<(Op, Fault)>)
    requires forall i | 0 <= i < |ops| :: CleanOp(ops[i].0) && !ops[i].1.VmailboxFails?
    ensures Aligned(Run(Files(None, None), ops))
  {
    assert Lines("") == [] by {
      assert [""][1..] == [];
    }
    FilesStayAligned(Files(None, None), ops);
  }

  function Faultless(ops: seq<Op>): seq<(Op, Fault)> {
    if ops == [] then [] else [(ops[0], NoFault)] + Faultless(ops[1..])
  }

  function Effects(addresses: seq<string>, ops: seq<Op>): seq<string>
    decreases ops
  {
    if ops == [] then addresses else Effects(Effect(addresses, ops[0]), ops[1..])
  }

  /** Over a run of successful calls the listed addresses are those of the same calls on a plain list. */
  lemma {:induction false} RunRefinesList(s: Files, ops: seq<Op>)
    requires Aligned(s)
    requires forall i | 0 <= i < |ops| :: CleanOp(ops[i]) && '@' in ops[i].address
    ensures Aligned(Run(s, Faultless(ops)))
    ensures Addresses(Run(s, Faultless(ops)).dovecot, ':') == Effects(Addresses(s.dovecot, ':'), ops)
    decreases ops
  {
    if ops != [] {
      PerformOnAddresses(s, ops[0], NoFault);
      RunRefinesList(Perform(s, ops[0], NoFault), ops[1..]);
      assert Faultless(ops)[1..] == Faultless(ops[1..]);
    }
  }

  lemma {:induction false} DropAbsent(keys: seq<string>, key: string)
    ensures Drop(keys, key) == keys <==> key !in keys
    ensures |Drop(keys, key)| <= |keys|
  {
    if keys != [] {
      DropAbsent(keys[1..], key);
      assert keys == [keys[0]] + keys[1..];
      if keys[0] != key {
        assert Drop(keys, key)[1..] == Drop(keys[1..], key);
      }
    }
  }

  // ---- Create, then delete ----

  /** A text that consists of its non-empty lines. */
  predicate Normalised(content: string) {
    content == Unlines(Lines(content))
  }

  lemma {:induction false} WithoutConcat(a: seq<string>, b: seq<string>, prefix: string)
    ensures Without(a + b, prefix) == Without(a, prefix) + Without(b, prefix)
  {
    if a == [] {
      assert a + b == b;
    } else {
      assert (a + b)[1..] == a[1..] + b;
      WithoutConcat(a[1..], b, prefix);
    }
  }

  lemma {:induction false} WithoutNothing(lines: seq<string>, prefix: string)
    requires forall i | 0 <= i < |lines| :: !HasPrefix(lines[i], prefix)
    ensures Without(lines, prefix) == lines
  {
    if lines != [] {
      WithoutNothing(lines[1..], prefix);
      assert lines == [lines[0]] + lines[1..];
    }
  }

  predicate Mentions(f: File, address: string, sep: char) {
    exists i | 0 <= i < |Lines(Content(f))| :: HasPrefix(Lines(Content(f))[i], address + [sep])
  }

  lemma AddThenRemove(f: File, key: string, rest: string, sep: char)
    requires Normalised(Content(f)) && !Mentions(f, key, sep)
    requires '\n' !in key && '\n' !in rest && sep != '\n'
    ensures RemoveLinePrefix(Append(f, key + [sep] + rest + "\n"), key + [sep]) == Some(Content(f))
  {
    var content, line := Content(f), key + [sep] + rest;
    UnlinesTerminated(Lines(content));
    LinesAppend(content, line);
    assert content + (line + "\n") == content + (key + [sep] + rest + "\n");
    RewrittenIsUnlines(content + (line + "\n"), key + [sep]);
    WithoutConcat(Lines(content), [line], key + [sep]);
    WithoutNothing(Lines(content), key + [sep]);
    assert line[..|key| + 1] == key + [sep];
    assert Without([line], key + [sep]) == [];
    assert Without(Lines(content) + [line], key + [sep]) == Lines(content);
  }

  /** Creating a mailbox and deleting it again restores both files byte for byte, if they were normalised
      and had no line for the address; a file that did not exist is left empty. */
  lemma CreateThenDelete(s: Files, address: string, passwordHash: string)
    requires Normalised(Content(s.dovecot)) && Normalised(Content(s.vmailbox))
    requires !Mentions(s.dovecot, address, ':') && !Mentions(s.vmailbox, address, ' ')
    requires '@' in address && '\n' !in address && '\n' !in passwordHash
    ensures Perform(Perform(s, Create(address, passwordHash), NoFault), Delete(address), NoFault)
            == Files(Some(Content(s.dovecot)), Some(Content(s.vmailbox)))
  {
    EntriesByKey(address, passwordHash);
    AddThenRemove(s.dovecot, address, passwordHash + "::::::", ':');
    AddThenRemove(s.vmailbox, address, MailboxPath(address), ' ');
    assert address + ":" == address + [':'] && address + " " == address + [' '];
  }

  /** The lines filed under another key, in order. */
  function OtherLines(lines: seq<string>, key: string, sep: char): seq<string> {
    if lines == [] then []
    else if sep in lines[0] && Key(lines[0], sep) == key then OtherLines(lines[1..], key, sep)
    else [lines[0]] + OtherLines(lines[1..], key, sep)
  }

  lemma {:induction false} WithoutIsOtherLines(lines: seq<string>, key: string, sep: char)
    requires sep !in key
    ensures Without(lines, key + [sep]) == OtherLines(lines, key, sep)
  {
    if lines != [] {
      PrefixIffKey(lines[0], key, sep);
      WithoutIsOtherLines(lines[1..], key, sep);
    }
  }

  /** A delete removes exactly the lines of its address: every other line of either file stays, in order,
      whatever prefix its address shares. */
  lemma DeleteKeepsOtherLines(s: Files, address: string)
    requires '@' in address && Clean(address)
    ensures var s' := Perform(s, Delete(address), NoFault);
            && Lines(Content(s'.dovecot)) == OtherLines(Lines(Content(s.dovecot)), address, ':')
            && Lines(Content(s'.vmailbox)) == OtherLines(Lines(Content(s.vmailbox)), address, ' ')
  {
    assert address + ":" == address + [':'] && address + " " == address + [' '];
    RewrittenIsUnlines(Content(s.dovecot), address + ":");
    RewrittenIsUnlines(Content(s.vmailbox), address + " ");
    WithoutIsOtherLines(Lines(Content(s.dovecot)), address, ':');
    WithoutIsOtherLines(Lines(Content(s.vmailbox)), address, ' ');
  }

  // ---- Exactly when one call keeps the files aligned ----

  predicate OneLine(op: Op) {
    '\n' !in op.address && (op.Create? ==> '\n' !in op.passwordHash)
  }

  /** An address that is not clean is filed under different keys in the two files. */
  lemma UncleanKeysDiffer(address: string)
    requires '\n' !in address
    ensures Key(address, ':') == Key(address, ' ') <==> Clean(address)
  {
    KeyOfText(address, "", ':');
    KeyOfText(address, "", ' ');
  }

  function Occurrences(keys: seq<string>, key: string): nat {
    if keys == [] then 0 else (if keys[0] == key then 1 else 0) + Occurrences(keys[1..], key)
  }

  predicate Starts(lines: seq<string>, prefix: string) {
    exists i | 0 <= i < |lines| :: HasPrefix(lines[i], prefix)
  }

  lemma LineKey(line: string, address: string, sep: char)
    requires HasPrefix(line, address + [sep])
    ensures Key(line, sep) == Key(address, sep)
  {
    var rest := line[|address| + 1..];
    assert line == address + [sep] + rest;
    KeyOfText(address, rest, sep);
  }

  /** Removing the lines that start with an address takes away keys of that address only, and some if there
      are such lines. */
  lemma {:induction false} KeysLeft(lines: seq<string>, address: string, sep: char, key: string)
    requires Filed(lines, sep)
    ensures var left := Without(lines, address + [sep]);
            && Filed(left, sep)
            && Occurrences(Keys(left, sep), key) <= Occurrences(Keys(lines, sep), key)
            && (key != Key(address, sep) ==> Occurrences(Keys(left, sep), key) == Occurrences(Keys(lines, sep), key))
            && (key == Key(address, sep) && Starts(lines, address + [sep]) ==>
                  Occurrences(Keys(left, sep), key) < Occurrences(Keys(lines, sep), key))
  {
    if lines != [] {
      var prefix := address + [sep];
      KeysLeft(lines[1..], address, sep, key);
      assert Keys(lines, sep)[1..] == Keys(lines[1..], sep);
      if HasPrefix(lines[0], prefix) {
        LineKey(lines[0], address, sep);
      } else {
        var rest := Without(lines[1..], prefix);
        assert Without(lines, prefix)[1..] == rest;
        assert Keys(Without(lines, prefix), sep)[1..] == Keys(rest, sep);
        if Starts(lines, prefix) {
          var i :| 0 <= i < |lines| && HasPrefix(lines[i], prefix);
          assert HasPrefix(lines[1..][i - 1], prefix);
        }
      }
    }
  }

  /** What a removal leaves of one file. */
  lemma RemoveAny(f: File, address: string, sep: char, key: string)
    requires WellFormed(f, sep)
    ensures var f' := RemoveLinePrefix(f, address + [sep]);
            && WellFormed(f', sep)
            && (!Mentions(f, address, sep) ==> Addresses(f', sep) == Addresses(f, sep))
            && (key != Key(address, sep) ==>
                  Occurrences(Addresses(f', sep), key) == Occurrences(Addresses(f, sep), key))
            && (key == Key(address, sep) && Mentions(f, address, sep) ==>
                  Occurrences(Addresses(f', sep), key) < Occurrences(Addresses(f, sep), key))
  {
    assert Lines("") == [] by {
      assert [""][1..] == [];
    }
    if f.Some? {
      RewrittenIsUnlines(f.value, address + [sep]);
      KeysLeft(Lines(f.value), address, sep, key);
      if !Mentions(f, address, sep) {
        WithoutNothing(Lines(f.value), address + [sep]);
      }
    }
  }

  /** A call that reaches the files keeps them aligned: a create in exactly this case, */
  predicate CreateAligns(address: string, fault: Fault) {
    !fault.VmailboxFails? && Clean(address)
  }

  /** and a delete in exactly this one. */
  predicate DeleteAligns(s: Files, address: string, fault: Fault) {
    if Clean(address) then fault.VmailboxFails? ==> address !in Addresses(s.dovecot, ':')
    else !Mentions(s.dovecot, address, ':') && (fault.VmailboxFails? || !Mentions(s.vmailbox, address, ' '))
  }

  lemma CreateAlignsIff(s: Files, address: string, hash: string, fault: Fault)
    requires Aligned(s) && '\n' !in address && '\n' !in hash && '@' in address && !fault.DovecotFails?
    ensures Aligned(Perform(s, Create(address, hash), fault)) <==> CreateAligns(address, fault)
  {
    EntriesByKey(address, hash);
    AppendEntry(s.dovecot, address, hash + "::::::", ':');
    AppendEntry(s.vmailbox, address, MailboxPath(address), ' ');
    UncleanKeysDiffer(address);
    var all, x, y := Addresses(s.dovecot, ':'), Key(address, ':'), Key(address, ' ');
    assert (all + [x])[|all|] == x && (all + [y])[|all|] == y;
    assert |all + [x]| != |all|;
  }

  lemma DeleteAlignsIff(s: Files, address: string, fault: Fault)
    requires Aligned(s) && '\n' !in address && '@' in address && !fault.DovecotFails?
    ensures Aligned(Perform(s, Delete(address), fault)) <==> DeleteAligns(s, address, fault)
  {
    assert address + ":" == address + [':'] && address + " " == address + [' '];
    var x, y := Key(address, ':'), Key(address, ' ');
    if Clean(address) {
      RemoveEntries(s.dovecot, address, ':');
      RemoveEntries(s.vmailbox, address, ' ');
      DropAbsent(Addresses(s.dovecot, ':'), address);
    } else {
      UncleanKeysDiffer(address);
      RemoveAny(s.dovecot, address, ':', x);
      RemoveAny(s.dovecot, address, ':', y);
      RemoveAny(s.vmailbox, address, ' ', x);
      RemoveAny(s.vmailbox, address, ' ', y);
    }
  }

  /** Exactly when one call keeps the files aligned, for every one-line address and every failure. A fully
      successful create breaks the alignment if its address holds a colon or a space. */
  lemma AlignmentKeptIff(s: Files, op: Op, fault: Fault)
    requires Aligned(s) && OneLine(op)
    ensures Aligned(Perform(s, op, fault)) <==>
            ('@' in op.address && !fault.DovecotFails? ==>
               match op
               case Create(address, _) => CreateAligns(address, fault)
               case Delete(address) => DeleteAligns(s, address, fault))
  {
    if '@' in op.address && !fault.DovecotFails? {
      match op
      case Create(address, hash) => CreateAlignsIff(s, address, hash, fault);
      case Delete(address) => DeleteAlignsIff(s, address, fault);
    }
  }
}
