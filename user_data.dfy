/**
 * The EC2 user-data script of a job: a template literal rendered by plain
 * interpolation, with no escaping.  Every non-empty line after
 * `#!/bin/bash` keeps the eight spaces of indentation the template carries
 * in the source; lines 56, 58 and 65 are empty and line 62 is the
 * indentation alone.
 */
module UserData {
  import opened Wrappers

  /**
   * `${v}` of a value that may be `undefined`.  The rendered text cannot tell
   * an absent value from the string `undefined`.
   */
  function Interpolate(v: Option<string>): (r: string)
    ensures r == "undefined" <==> v == None || v == Some("undefined")
  {
    match v
    case Some(s) => s
    case None => "undefined"
  }

  const Indent: string := "        "

  /** A line break inside the template: a newline and the next line's indentation. */
  const LineBreak: string := "\n" + Indent

  const Shebang: string := "#!/bin/bash"

  /** Lines 53-64 of the template: installing the tools the job needs. */
  const InstallSteps: string :=
    Indent + "sudo apt-get update\n" +
    Indent + "sudo apt-get install unzip -y\n" +
    Indent + "sudo su\n" +
    "\n" +
    Indent + "cd /home/ubuntu\n" +
    "\n" +
    Indent + "curl \"https://awscli.amazonaws.com/awscli-exe-linux-x86_64.zip\" -o \"awscliv2.zip\"\n" +
    Indent + "unzip awscliv2.zip\n" +
    Indent + "sudo ./aws/install\n" +
    Indent + "\n" +
    Indent + "curl \"https://s3.amazonaws.com/ec2-downloads-windows/SSMAgent/latest/debian_amd64/amazon-ssm-agent.deb\" -o \"amazon-ssm-agent.deb\"\n" +
    Indent + "dpkg -i amazon-ssm-agent.deb\n"

  /** Lines 53-65: the installation, then the empty line 65. */
  const Install: string := InstallSteps + "\n"

  /** Line 66 up to the bucket name: the start of the copy command. */
  const CopySource: string := Indent + "aws s3 cp " + "s3://"

  /** Line 66 after the bucket name: the object and the path it is copied to. */
  const CopyTarget: string := "/ec2_script.sh" + " /home/ubuntu/ec2_script.sh"

  /** The template text up to the script bucket's name (lines 52-66). */
  const Preamble: string := Shebang + "\n" + Install + CopySource

  /** The template text between the bucket name and the invocation line (lines 66-68). */
  const Interlude: string := CopyTarget + LineBreak + "chmod +x /home/ubuntu/ec2_script.sh" + LineBreak

  const ScriptCommand: string := "/home/ubuntu/ec2_script.sh "

  /** The last line: the job's script with its four positional arguments. */
  function InvocationLine(id: string, text: string, path: string, table: string): string {
    ScriptCommand + id + " '" + text + "' '" + path + "' " + table
  }

  /** The template literal of lines 52-68. */
  function RenderUserData(bucketName: string, id: Option<string>, textInput: Option<string>,
                          s3Path: Option<string>, tableName: string): string
  {
    Preamble + bucketName + Interlude +
    InvocationLine(Interpolate(id), Interpolate(textInput), Interpolate(s3Path), tableName)
  }

  predicate NoChar(s: string, c: char) {
    forall i :: 0 <= i < |s| ==> s[i] != c
  }

  lemma SliceOfLeft(a: string, b: string, i: int, j: int)
    requires 0 <= i <= j <= |a|
    ensures (a + b)[i..j] == a[i..j]
  {
  }

  lemma TemplateFacts()
    ensures |Preamble| > |Shebang| && Preamble[..|Shebang| + 1] == Shebang + "\n"
    ensures |Interlude| >= 9 && Interlude[|Interlude| - 9..] == "\n" + Indent
  {
    var n := |Shebang| + 1;
    var first := Shebang + "\n";
    SliceOfLeft(first, Install, 0, n);
    SliceOfLeft(first + Install, CopySource, 0, n);
    SuffixOfRight(CopyTarget + LineBreak + "chmod +x /home/ubuntu/ec2_script.sh", LineBreak, 9);
  }

  /** The text before the bucket name ends with a line break and the start of the copy command. */
  lemma CopySourceFacts()
    ensures |Preamble| >= 24 && Preamble[|Preamble| - 24..] == "\n" + CopySource
  {
    PreambleShape();
    LineEndThen(Shebang + "\n", InstallSteps, CopySource);
  }

  lemma PreambleShape()
    ensures Preamble == Shebang + "\n" + (InstallSteps + "\n") + CopySource
    ensures |CopySource| == 23
  {
  }

  lemma LineEndThen(a: string, b: string, c: string)
    ensures |a + (b + "\n") + c| >= |c| + 1
    ensures (a + (b + "\n") + c)[|a + (b + "\n") + c| - |c| - 1..] == "\n" + c
  {
    var s := a + (b + "\n") + c;
    assert s[|s| - |c| - 1..] == [s[|s| - |c| - 1]] + c;
  }

  /** The text after the bucket name starts with the rest of the copy command and its line break. */
  lemma CopyTargetFacts()
    ensures |Interlude| >= 42 && Interlude[..42] == CopyTarget + "\n"
  {
    var chmod := "chmod +x /home/ubuntu/ec2_script.sh";
    assert Interlude[..42] == (CopyTarget + LineBreak)[..42] by {
      SliceOfLeft(CopyTarget + LineBreak + chmod, LineBreak, 0, 42);
      SliceOfLeft(CopyTarget + LineBreak, chmod, 0, 42);
    }
    assert (CopyTarget + LineBreak)[..42] == CopyTarget + "\n" by {
      PrefixAcross(CopyTarget, LineBreak, 42);
      assert LineBreak[..1] == "\n";
    }
  }

  /** The copy command, spelled out. */
  lemma CopyLineText(bucketName: string)
    ensures "\n" + CopySource + bucketName + (CopyTarget + "\n")
         == "\n" + Indent + "aws s3 cp s3://" + bucketName + "/ec2_script.sh /home/ubuntu/ec2_script.sh\n"
  {
    assert CopySource == Indent + "aws s3 cp s3://";
    assert CopyTarget + "\n" == "/ec2_script.sh /home/ubuntu/ec2_script.sh\n";
  }

  lemma SuffixOfRight(a: string, b: string, k: int)
    requires 0 <= k <= |b|
    ensures (a + b)[|a + b| - k..] == b[|b| - k..]
  {
  }

  lemma SuffixAcross(a: string, b: string, k: int)
    requires 0 <= k <= |a|
    ensures |a + b| >= |b| + k
    ensures (a + b)[|a + b| - |b| - k..] == a[|a| - k..] + b
    ensures (a + b)[|a + b| - |b|..] == b
  {
  }

  lemma PrefixAcross(a: string, b: string, j: int)
    requires |a| <= j <= |a| + |b|
    ensures (a + b)[..j] == a + b[..j - |a|]
  {
  }

  lemma SliceAcross(a: string, b: string, c: string, i: int, j: int)
    requires 0 <= i <= |a| && |a| + |b| <= j <= |a| + |b| + |c|
    ensures (a + b + c)[i..j] == a[i..] + b + c[..j - |a| - |b|]
  {
  }

  /** The script starts with the `#!/bin/bash` line. */
  lemma StartsWithShebang(bucketName: string, id: Option<string>, textInput: Option<string>,
                          s3Path: Option<string>, tableName: string)
    ensures var r := RenderUserData(bucketName, id, textInput, s3Path, tableName);
      |r| > |Shebang| && r[..|Shebang| + 1] == Shebang + "\n"
  {
    var line := InvocationLine(Interpolate(id), Interpolate(textInput), Interpolate(s3Path), tableName);
    var n := |Shebang| + 1;
    TemplateFacts();
    SliceOfLeft(Preamble + bucketName + Interlude, line, 0, n);
    SliceOfLeft(Preamble + bucketName, Interlude, 0, n);
    SliceOfLeft(Preamble, bucketName, 0, n);
  }

  /**
   * Line 66 of the script copies the job script from
   * `s3://<bucket>/ec2_script.sh` to `/home/ubuntu/ec2_script.sh`, the path
   * the last line runs.
   */
  lemma CopiesJobScript(bucketName: string, id: Option<string>, textInput: Option<string>,
                        s3Path: Option<string>, tableName: string)
    ensures var r := RenderUserData(bucketName, id, textInput, s3Path, tableName);
      var cmd := "\n" + Indent + "aws s3 cp s3://" + bucketName + "/ec2_script.sh /home/ubuntu/ec2_script.sh\n";
      |Preamble| - 24 + |cmd| <= |r| && r[|Preamble| - 24..|Preamble| - 24 + |cmd|] == cmd
  {
    var line := InvocationLine(Interpolate(id), Interpolate(textInput), Interpolate(s3Path), tableName);
    assert RenderUserData(bucketName, id, textInput, s3Path, tableName) == Preamble + bucketName + Interlude + line;
    CopyLineBefore(bucketName, line);
  }

  lemma CopyLineBefore(bucketName: string, line: string)
    ensures var r := Preamble + bucketName + Interlude + line;
      var cmd := "\n" + Indent + "aws s3 cp s3://" + bucketName + "/ec2_script.sh /home/ubuntu/ec2_script.sh\n";
      |Preamble| - 24 + |cmd| <= |r| && r[|Preamble| - 24..|Preamble| - 24 + |cmd|] == cmd
  {
    var cmd := "\n" + Indent + "aws s3 cp s3://" + bucketName + "/ec2_script.sh /home/ubuntu/ec2_script.sh\n";
    var k := |Preamble| - 24;
    CopySourceFacts();
    CopyTargetFacts();
    CopyLineText(bucketName);
    SliceOfLeft(Preamble + bucketName + Interlude, line, k, k + |cmd|);
    SliceAcross(Preamble, bucketName, Interlude, k, k + |cmd|);
  }

  /** The template followed by any last line ends with a line break and that line. */
  lemma EndsWithLine(bucketName: string, line: string)
    ensures var r := Preamble + bucketName + Interlude + line;
      && |r| >= |line| + 9
      && r[|r| - |line| - 9..] == "\n" + Indent + line
      && r[|r| - |line|..] == line
  {
    TemplateFacts();
    SuffixOfRight(Preamble + bucketName, Interlude, 9);
    SuffixAcross(Preamble + bucketName + Interlude, line, 9);
  }

  /**
   * The script ends with a line holding eight spaces and the invocation,
   * with the four values inserted verbatim and in order.
   */
  lemma EndsWithInvocation(bucketName: string, id: Option<string>, textInput: Option<string>,
                           s3Path: Option<string>, tableName: string)
    ensures var r := RenderUserData(bucketName, id, textInput, s3Path, tableName);
      var line := InvocationLine(Interpolate(id), Interpolate(textInput), Interpolate(s3Path), tableName);
      |r| >= |line| + 9 && r[|r| - |line| - 9..] == "\n" + Indent + line
  {
    var line := InvocationLine(Interpolate(id), Interpolate(textInput), Interpolate(s3Path), tableName);
    assert RenderUserData(bucketName, id, textInput, s3Path, tableName) == Preamble + bucketName + Interlude + line;
    EndsWithLine(bucketName, line);
  }

  /** When no value holds a newline, the invocation is the script's last line. */
  lemma InvocationIsLastLine(bucketName: string, id: Option<string>, textInput: Option<string>,
                             s3Path: Option<string>, tableName: string)
    requires NoChar(Interpolate(id), '\n') && NoChar(Interpolate(textInput), '\n')
    requires NoChar(Interpolate(s3Path), '\n') && NoChar(tableName, '\n')
    ensures var r := RenderUserData(bucketName, id, textInput, s3Path, tableName);
      var line := InvocationLine(Interpolate(id), Interpolate(textInput), Interpolate(s3Path), tableName);
      |r| >= |line| && NoChar(r[|r| - |line|..], '\n')
  {
    var line := InvocationLine(Interpolate(id), Interpolate(textInput), Interpolate(s3Path), tableName);
    EndsWithLine(bucketName, line);
    NoNewlineInLine(Interpolate(id), Interpolate(textInput), Interpolate(s3Path), tableName);
  }

  lemma NoCharConcat(a: string, b: string, c: char)
    requires NoChar(a, c) && NoChar(b, c)
    ensures NoChar(a + b, c)
  {
  }

  lemma NoNewlineInLine(id: string, text: string, path: string, table: string)
    requires NoChar(id, '\n') && NoChar(text, '\n') && NoChar(path, '\n') && NoChar(table, '\n')
    ensures NoChar(InvocationLine(id, text, path, table), '\n')
  {
    var nl := '\n';
    NoCharConcat(ScriptCommand, id, nl);
    NoCharConcat(ScriptCommand + id, " '", nl);
    NoCharConcat(ScriptCommand + id + " '", text, nl);
    NoCharConcat(ScriptCommand + id + " '" + text, "' '", nl);
    NoCharConcat(ScriptCommand + id + " '" + text + "' '", path, nl);
    NoCharConcat(ScriptCommand + id + " '" + text + "' '" + path, "' ", nl);
    NoCharConcat(ScriptCommand + id + " '" + text + "' '" + path + "' ", table, nl);
  }

  /**
   * With no `'` in the job id or the text, the text sits exactly between the
   * first two single quotes of the invocation line.
   */
  lemma TextQuoted(id: string, text: string, path: string, table: string)
    requires NoChar(id, '\'') && NoChar(text, '\'')
    ensures var line := InvocationLine(id, text, path, table);
      var open := |ScriptCommand| + |id| + 1;
      && line[open] == '\''
      && NoChar(line[..open], '\'')
      && line[open + 1..open + 1 + |text|] == text
      && line[open + 1 + |text|] == '\''
  {
    var line := InvocationLine(id, text, path, table);
    var open := |ScriptCommand| + |id| + 1;
    assert line == ScriptCommand + id + " '" + text + "' '" + path + "' " + table;
    assert line[..open] == ScriptCommand + id + " ";
  }

  /**
   * Nothing is escaped: when the text holds a `'`, the first quoted argument
   * ends at the text's first `'`, and the rest of the text lands outside the
   * quotes.
   */
  lemma TextBreaksOut(id: string, text: string, path: string, table: string, m: nat)
    requires NoChar(id, '\'') && m < |text| && text[m] == '\'' && NoChar(text[..m], '\'')
    ensures var line := InvocationLine(id, text, path, table);
      var open := |ScriptCommand| + |id| + 1;
      && line[open] == '\''
      && line[open + 1..open + 1 + m] == text[..m]
      && line[open + 1 + m] == '\''
      && open + 1 + m < open + 1 + |text|
  {
    var line := InvocationLine(id, text, path, table);
    var open := |ScriptCommand| + |id| + 1;
    assert line == ScriptCommand + id + " '" + text + "' '" + path + "' " + table;
    assert line[open + 1..open + 1 + |text|] == text;
    assert line[open + 1..open + 1 + m] == text[..m];
  }

  /** Absent fields render as the word `undefined`. */
  lemma AbsentFieldsRenderUndefined(table: string)
    ensures InvocationLine(Interpolate(None), Interpolate(None), Interpolate(None), table)
            == "/home/ubuntu/ec2_script.sh undefined 'undefined' 'undefined' " + table
  {
  }
}
