/**
 The two scripts that run as root, and the commands they are run by. Whatever the path is, the
 shell gets exactly the script, the folder and the name in it, and the mode as five octal digits.
 */
module RootScripts {
  import opened Wrappers
  import opened Shell
  import Sudo

  const REMOVED := "UWUSSH-REMOVED"
  const NOT_REMOVED := "UWUSSH-NOT-REMOVED"
  const CHANGED := "UWUSSH-CHANGED"
  const NOT_CHANGED := "UWUSSH-NOT-CHANGED"

  // The texts of the scripts, cut so that each piece is easily seen to hold no quote.
  const PIN_ENTERS := @"pin() { { cd -P -- ""$1""" + @" && [ ""$(pwd -P)"" = ""$1"" ]; }"
  const PIN_SAYS := @" || { printf ""\n%s is not the" + @" folder that was listed: a" + @" link is on the way there\n"
  const PIN_ENDS := @""" ""$1""; return 1; }; }; pin ""$1"""
  const REMOVES := @" && rm -rf -- ""./$2"""
  const IF_LINK := @" && if [ -L ""./$2"" ]; then" + @" printf ""\n%s is a link\n""" + @" ""$2""; false;"
  const IF_FOLDER := @" elif [ -d ""./$2"" ]; then" + @" pin ""${1%/}/$2"" && chmod" + @" ""$3"" .;"
  const IF_SHARED := @" elif [ -n ""$(find . -prune" + @" \( ! -user 0 -o -perm -020" + @" -o -perm -002 \))"" ]; then"
  const SHARED_SAYS := @" printf ""\nothers can write" + @" to %s, so a file in it" + @" could be swapped for a link"
  const SHARED_ENDS := @": change it as its owner\n""" + @" ""$1""; false;"
  const OTHERWISE := @" else chmod ""$3"" ""./$2""; fi"
  const AND_SAY := @" && printf ""\n"
  const OR_SAY := @"\n"" || printf ""\n"
  const SAID := @"\n"""

  const PIN := PIN_ENTERS + PIN_SAYS + PIN_ENDS
  const REMOVE_SCRIPT := PIN + REMOVES + (AND_SAY + REMOVED + OR_SAY) + (NOT_REMOVED + SAID)
  const CHMOD_SCRIPT := PIN + (IF_LINK + IF_FOLDER + IF_SHARED) + (SHARED_SAYS + SHARED_ENDS + OTHERWISE)
                        + (AND_SAY + CHANGED + OR_SAY) + (NOT_CHANGED + SAID)

  predicate NoQuote(text: string) {
    '\'' !in text
  }

  lemma NoQuoteInAll(a: string, b: string, c: string)
    requires NoQuote(a) && NoQuote(b) && NoQuote(c)
    ensures NoQuote(a + b + c) && NoQuote(a + b)
  {
  }

  lemma EntersHasNoQuote()
    ensures NoQuote(PIN_ENTERS)
  {
    NoQuoteInAll(@"pin() { { cd -P -- ""$1""", @" && [ ""$(pwd -P)"" = ""$1"" ]; }", "");
  }

  lemma SaysHasNoQuote()
    ensures NoQuote(PIN_SAYS)
  {
    NoQuoteInAll(@" || { printf ""\n%s is not the", @" folder that was listed: a", @" link is on the way there\n");
  }

  lemma PinHasNoQuote()
    ensures NoQuote(PIN)
  {
    EntersHasNoQuote();
    SaysHasNoQuote();
    NoQuoteInAll(PIN_ENTERS, PIN_SAYS, PIN_ENDS);
  }

  lemma LinkHasNoQuote()
    ensures NoQuote(IF_LINK)
  {
    NoQuoteInAll(@" && if [ -L ""./$2"" ]; then", @" printf ""\n%s is a link\n""", @" ""$2""; false;");
  }

  lemma FolderHasNoQuote()
    ensures NoQuote(IF_FOLDER)
  {
    NoQuoteInAll(@" elif [ -d ""./$2"" ]; then", @" pin ""${1%/}/$2"" && chmod", @" ""$3"" .;");
  }

  lemma SharedHasNoQuote()
    ensures NoQuote(IF_SHARED)
  {
    NoQuoteInAll(@" elif [ -n ""$(find . -prune", @" \( ! -user 0 -o -perm -020", @" -o -perm -002 \))"" ]; then");
  }

  lemma SharedSaysNoQuote()
    ensures NoQuote(SHARED_SAYS)
  {
    NoQuoteInAll(@" printf ""\nothers can write", @" to %s, so a file in it", @" could be swapped for a link");
  }

  lemma SharedEndsNoQuote()
    ensures NoQuote(SHARED_ENDS)
  {
    NoQuoteInAll(@": change it as its owner\n""", @" ""$1""; false;", "");
  }

  lemma EndsHaveNoQuote(yes: string, no: string)
    requires NoQuote(yes) && NoQuote(no)
    ensures NoQuote(AND_SAY + yes + OR_SAY) && NoQuote(no + SAID)
  {
    NoQuoteInAll(AND_SAY, yes, OR_SAY);
    NoQuoteInAll(no, SAID, "");
  }

  lemma RemoveScriptHasNoQuote()
    ensures NoQuote(REMOVE_SCRIPT)
  {
    PinHasNoQuote();
    EndsHaveNoQuote(REMOVED, NOT_REMOVED);
    NoQuoteInAll(PIN, REMOVES, AND_SAY + REMOVED + OR_SAY);
    NoQuoteInAll(PIN + REMOVES + (AND_SAY + REMOVED + OR_SAY), NOT_REMOVED + SAID, "");
  }

  lemma ChmodScriptHasNoQuote()
    ensures NoQuote(CHMOD_SCRIPT)
  {
    PinHasNoQuote();
    LinkHasNoQuote();
    FolderHasNoQuote();
    SharedHasNoQuote();
    SharedSaysNoQuote();
    SharedEndsNoQuote();
    EndsHaveNoQuote(CHANGED, NOT_CHANGED);
    NoQuoteInAll(IF_LINK, IF_FOLDER, IF_SHARED);
    NoQuoteInAll(SHARED_SAYS, SHARED_ENDS, OTHERWISE);
    var checks, shared := IF_LINK + IF_FOLDER + IF_SHARED, SHARED_SAYS + SHARED_ENDS + OTHERWISE;
    NoQuoteInAll(PIN, checks, shared);
    NoQuoteInAll(PIN + checks + shared, AND_SAY + CHANGED + OR_SAY, NOT_CHANGED + SAID);
  }

  // ------------------------------------------------------------------ the commands

  /** So many octal digits of a number, the last ones. */
  function Octal(n: nat, digits: nat): string {
    if digits == 0 then "" else Octal(n / 8, digits - 1) + [('0' as int + n % 8) as char]
  }

  function OctalValue(text: string): int {
    if text == "" then 0 else 8 * OctalValue(text[..|text| - 1]) + (text[|text| - 1] as int - '0' as int)
  }

  /** Permission bits as `chmod` takes them: five digits, since with four a folder would keep its setgid bit. */
  function ModeText(mode: nat): string {
    Octal(mode % 0x1000, 5)
  }

  lemma OctalOneMore(n: nat, digits: nat)
    requires digits > 0
    ensures |Octal(n, digits)| == |Octal(n / 8, digits - 1)| + 1
    ensures OctalValue(Octal(n, digits)) == 8 * OctalValue(Octal(n / 8, digits - 1)) + n % 8
  {
    var init := Octal(n / 8, digits - 1);
    var last := ('0' as int + n % 8) as char;
    assert (init + [last])[..|init|] == init;
  }

  /** The mode is five digits that mean its low twelve bits. */
  lemma ModeIsRead(mode: nat)
    ensures |ModeText(mode)| == 5 && OctalValue(ModeText(mode)) == mode % 0x1000
  {
    var n := mode % 0x1000;
    OctalOneMore(n, 5);
    OctalOneMore(n / 8, 4);
    OctalOneMore(n / 8 / 8, 3);
    OctalOneMore(n / 8 / 8 / 8, 2);
    OctalOneMore(n / 8 / 8 / 8 / 8, 1);
  }

  function RemoveCommand(path: string): Option<string> {
    match ToRootTarget(path)
    case None => None
    case Some(target) => Some(AsRoot(REMOVE_SCRIPT, [target.parent, target.name]))
  }

  function ChmodCommand(path: string, mode: nat): Option<string> {
    match ToRootTarget(path)
    case None => None
    case Some(target) => Some(AsRoot(CHMOD_SCRIPT, [target.parent, target.name, ModeText(mode)]))
  }

  /** The words of a command that runs a script as root. */
  function RootWords(script: string, args: seq<string>): seq<string> {
    ["sudo", "-p", Sudo.SUDO_PROMPT, "--", "sh", "-c", script, "uwussh"] + args
  }

  /**
   Both commands are given exactly for the paths a root command may act on, and a shell reads
   them as the script with the folder, the name in it and the mode, and nothing else.
   */
  lemma RootCommandsAreReadBack(path: string, mode: nat)
    ensures RemoveCommand(path).Some? <==> ToRootTarget(path).Some?
    ensures ChmodCommand(path, mode).Some? <==> ToRootTarget(path).Some?
    ensures ToRootTarget(path).Some? ==>
              var target := ToRootTarget(path).value;
              && Words(RemoveCommand(path).value) == Some(RootWords(REMOVE_SCRIPT, [target.parent, target.name]))
              && Words(ChmodCommand(path, mode).value)
                 == Some(RootWords(CHMOD_SCRIPT, [target.parent, target.name, ModeText(mode)]))
  {
    if ToRootTarget(path).Some? {
      var target := ToRootTarget(path).value;
      RemoveScriptHasNoQuote();
      ChmodScriptHasNoQuote();
      RootCommandIsReadBack(REMOVE_SCRIPT, [target.parent, target.name]);
      RootCommandIsReadBack(CHMOD_SCRIPT, [target.parent, target.name, ModeText(mode)]);
    }
  }
}
