/**
  The extension policy: `allowed_file`, whose text is identical in filevault.py and server.py.
  A file name's extension is the text after its last '.', lowercased, or "" when it has no '.'.
 */
module Extensions {
  import opened Wrappers

  const Whitelist := "whitelist"
  const Blacklist := "blacklist"

  /** `app.config['EXTENSION_RULE']`: the rule type (None until startup installs one) and its extensions. */
  datatype ExtensionRule = ExtensionRule(kind: Option<string>, extensions: set<string>)

  /** The two configuration keys that `allowed_file` reads. */
  datatype Policy = Policy(allowAll: bool, rule: ExtensionRule)

  /** The rule both servers install before reading their flags. */
  const DefaultRule := ExtensionRule(None, {})

  predicate IsUpper(c: char)
  {
    'A' <= c <= 'Z'
  }

  predicate NoUpper(s: string)
  {
    forall i :: 0 <= i < |s| ==> !IsUpper(s[i])
  }

  function LowerChar(c: char): (d: char)
    ensures !IsUpper(d)
    ensures IsUpper(c) ==> d as int == c as int + 32
    ensures !IsUpper(c) ==> d == c
    ensures d == '.' <==> c == '.'
  {
    if IsUpper(c) then (c as int + 32) as char else c
  }

  /** Python's `str.lower`, on ASCII letters. */
  function Lower(s: string): (r: string)
    ensures |r| == |s| && NoUpper(r)
    ensures forall i :: 0 <= i < |s| ==> r[i] == LowerChar(s[i])
    ensures NoUpper(s) ==> r == s
  {
    seq(|s|, i requires 0 <= i < |s| => LowerChar(s[i]))
  }

  /** Two characters that are equal, or are the upper- and lower-case forms of one ASCII letter. */
  predicate CaseVariant(a: char, b: char)
  {
    || a == b
    || (IsUpper(a) && b as int == a as int + 32)
    || (IsUpper(b) && a as int == b as int + 32)
  }

  /** Two strings that differ only in the case of ASCII letters. */
  predicate SameUpToCase(s: string, t: string)
  {
    |s| == |t| && forall i :: 0 <= i < |s| ==> CaseVariant(s[i], t[i])
  }

  /** Lowering identifies exactly the strings that differ only in the case of ASCII letters. */
  lemma LowerIdentifiesCase(s: string, t: string)
    ensures Lower(s) == Lower(t) <==> SameUpToCase(s, t)
  {
    if Lower(s) == Lower(t) {
      forall i | 0 <= i < |s| ensures CaseVariant(s[i], t[i]) {
        assert Lower(s)[i] == Lower(t)[i];
      }
    }
    if SameUpToCase(s, t) {
      assert forall i :: 0 <= i < |s| ==> Lower(s)[i] == Lower(t)[i];
    }
  }

  /** `s.rsplit('.', 1)[-1]`: the longest suffix of `s` without a '.'. */
  function AfterLastDot(s: string): (r: string)
    ensures |r| <= |s| && r == s[|s| - |r|..]
    ensures '.' !in r
    ensures |r| < |s| ==> s[|s| - |r| - 1] == '.'
  {
    if s == [] then []
    else if s[|s| - 1] == '.' then []
    else AfterLastDot(s[..|s| - 1]) + [s[|s| - 1]]
  }

  /** `filename.rsplit('.', 1)[1].lower() if '.' in filename else ''` */
  function Extension(filename: string): (ext: string)
    ensures '.' !in ext && NoUpper(ext)
    ensures '.' !in filename ==> ext == ""
  {
    if '.' in filename then Lower(AfterLastDot(filename)) else ""
  }

  /** `allowed_file(filename)` under the configuration `policy`. */
  function AllowedFile(policy: Policy, filename: string): (ok: bool)
    ensures policy.allowAll ==> ok
    ensures ok && !policy.allowAll ==> policy.rule.kind in {Some(Whitelist), Some(Blacklist)}
  {
    if policy.allowAll then true
    else
      var ext := Extension(filename);
      if policy.rule.kind == Some(Whitelist) then ext in policy.rule.extensions
      else if policy.rule.kind == Some(Blacklist) then ext !in policy.rule.extensions
      else false
  }

  /** The extension is the lowercased text after the '.' at `i`, whenever no '.' follows it. */
  lemma ExtensionIsLastSegment(filename: string, i: nat)
    requires i < |filename| && filename[i] == '.' && '.' !in filename[i + 1..]
    ensures Extension(filename) == Lower(filename[i + 1..])
  {
    assert '.' in filename;
    var r := AfterLastDot(filename);
    var j := |filename| - |r| - 1;
    assert 0 <= j && filename[j] == '.';
    assert r == filename[i + 1..];
  }

  lemma ExtensionOfTarGz()
    ensures Extension("a.tar.gz") == "gz"
  {
    var name := "a.tar.gz";
    assert name[5] == '.' && name[6..] == "gz";
    ExtensionIsLastSegment(name, 5);
  }

  lemma ExtensionOfTrailingDot()
    ensures Extension("file.") == ""
  {
    var name := "file.";
    assert name[4] == '.' && name[5..] == "";
    ExtensionIsLastSegment(name, 4);
  }

  lemma ExtensionOfDotfile()
    ensures Extension(".bashrc") == "bashrc"
  {
    var name, tail := ".bashrc", "bashrc";
    assert name[0] == '.' && name[1..] == tail;
    assert '.' !in tail && NoUpper(tail) by {
      assert forall k :: 0 <= k < |tail| ==> 'a' <= tail[k] <= 's';
    }
    ExtensionIsLastSegment(name, 0);
  }

  lemma ExtensionOfDotless()
    ensures Extension("README") == ""
  {
  }

  lemma LowerOfPdf()
    ensures Lower("PDF") == "pdf"
  {
    var lowered := Lower("PDF");
    assert lowered[0] == 'p' && lowered[1] == 'd' && lowered[2] == 'f';
  }

  lemma ExtensionOfReports()
    ensures Extension("report.pdf") == Extension("report.PDF") == "pdf"
  {
    ExtensionOfLowerReport();
    ExtensionOfUpperReport();
  }

  lemma ExtensionOfLowerReport()
    ensures Extension("report.pdf") == "pdf"
  {
    var pdf, tail := "report.pdf", "pdf";
    assert pdf[6] == '.' && pdf[7..] == tail;
    assert '.' !in tail && NoUpper(tail) by {
      assert forall k :: 0 <= k < |tail| ==> 'd' <= tail[k] <= 'p';
    }
    ExtensionIsLastSegment(pdf, 6);
  }

  lemma ExtensionOfUpperReport()
    ensures Extension("report.PDF") == "pdf"
  {
    var upper, tail := "report.PDF", "PDF";
    assert upper[6] == '.' && upper[7..] == tail;
    assert '.' !in tail by {
      assert forall k :: 0 <= k < |tail| ==> 'D' <= tail[k] <= 'P';
    }
    ExtensionIsLastSegment(upper, 6);
    LowerOfPdf();
  }

  lemma ExtensionOfExe()
    ensures Extension("virus.exe") == "exe"
  {
    var exe, tail := "virus.exe", "exe";
    assert exe[5] == '.' && exe[6..] == tail;
    assert '.' !in tail && NoUpper(tail) by {
      assert forall k :: 0 <= k < |tail| ==> 'e' <= tail[k] <= 'x';
    }
    ExtensionIsLastSegment(exe, 5);
  }

  /** Lowering a suffix is the suffix of the lowered string. */
  lemma LowerSuffix(s: string, a: nat)
    requires a <= |s|
    ensures Lower(s[a..]) == Lower(s)[a..]
  {
    assert forall k :: 0 <= k < |s| - a ==> Lower(s[a..])[k] == LowerChar(s[a + k]);
  }

  /** Lowercasing a name first does not change its extension. */
  lemma ExtensionIgnoresCase(filename: string)
    ensures Extension(Lower(filename)) == Extension(filename)
  {
    var low := Lower(filename);
    if '.' in filename {
      var r := AfterLastDot(filename);
      var i := |filename| - |r| - 1;
      ExtensionIsLastSegment(filename, i);
      LowerSuffix(filename, i + 1);
      assert low[i] == '.';
      assert '.' !in low[i + 1..] by {
        forall k | i + 1 <= k < |low| ensures low[k] != '.' {
          assert filename[k] == r[k - i - 1];
        }
      }
      ExtensionIsLastSegment(low, i);
    } else {
      assert '.' !in low by {
        forall k | 0 <= k < |low| ensures low[k] != '.' {
          assert filename[k] != '.';
        }
      }
    }
  }

  /** The case of the name never changes the verdict. */
  lemma AllowedFileIgnoresCase(policy: Policy, filename: string)
    ensures AllowedFile(policy, Lower(filename)) == AllowedFile(policy, filename)
  {
    ExtensionIgnoresCase(filename);
  }

  /** With a rule installed, the verdict is decided by the lowercased text after the last '.'. */
  lemma RuleDecidesOnLastSegment(rule: ExtensionRule, filename: string, i: nat)
    requires i < |filename| && filename[i] == '.' && '.' !in filename[i + 1..]
    ensures AllowedFile(Policy(false, rule), filename) <==>
      (rule.kind == Some(Whitelist) && Lower(filename[i + 1..]) in rule.extensions) ||
      (rule.kind == Some(Blacklist) && Lower(filename[i + 1..]) !in rule.extensions)
  {
    ExtensionIsLastSegment(filename, i);
  }

  /** A name without a '.' has the extension "" and is judged by whether "" is listed. */
  lemma RuleDecidesDotlessByEmpty(rule: ExtensionRule, filename: string)
    requires '.' !in filename
    ensures AllowedFile(Policy(false, rule), filename) <==>
      (rule.kind == Some(Whitelist) && "" in rule.extensions) ||
      (rule.kind == Some(Blacklist) && "" !in rule.extensions)
  {
  }

  /** A blacklist admits exactly what the whitelist with the same extensions rejects. */
  lemma BlacklistComplementsWhitelist(extensions: set<string>, filename: string)
    ensures AllowedFile(Policy(false, ExtensionRule(Some(Blacklist), extensions)), filename)
        == !AllowedFile(Policy(false, ExtensionRule(Some(Whitelist), extensions)), filename)
  {
  }

  /** Rule entries containing an upper-case letter never match any file's extension. */
  lemma UppercaseEntriesInert(policy: Policy, filename: string)
    ensures AllowedFile(policy, filename) ==
      AllowedFile(policy.(rule := policy.rule.(extensions := set e | e in policy.rule.extensions && NoUpper(e))), filename)
  {
    var ext := Extension(filename);
    assert NoUpper(ext);
  }
}
