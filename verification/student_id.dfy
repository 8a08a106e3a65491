/** The pure helpers of the barcode scanner: the student-ID grammar
    (`isValidStudentID`), normalisation (`cleanStudentID`) and the branch
    table (`getBranchInfo`). */
module StudentId {
  import opened JsString

  /** What the decoder hands over as `result.codeResult.code`: a string, or
      anything else (null, undefined, a non-string). */
  datatype Code = Text(s: string) | NotText

  /** The ten branch codes the pattern admits after the leading `S`. */
  const BranchCodes: set<string> := {"AU", "CE", "CV", "CS", "EE", "CO", "CT", "EC", "EV", "ME"}

  /** Whether the two letters `x` `y` form one of the ten branch codes. */
  predicate IsBranchPair(x: char, y: char) {
    || (x == 'A' && y == 'U')
    || (x == 'C' && (y == 'E' || y == 'V' || y == 'S' || y == 'O' || y == 'T'))
    || (x == 'E' && (y == 'E' || y == 'C' || y == 'V'))
    || (x == 'M' && y == 'E')
  }

  /** The letter test agrees with the list of codes. */
  lemma BranchPairIff(b: string)
    requires |b| == 2
    ensures IsBranchPair(b[0], b[1]) <==> b in BranchCodes
  {
    assert b == [b[0], b[1]];
  }

  predicate IsDigit(c: char) {
    '0' <= c <= '9'
  }

  predicate AllDigits(s: string) {
    forall i :: 0 <= i < |s| ==> IsDigit(s[i])
  }

  /** The anchored pattern `S(AU|CE|CV|CS|EE|CO|CT|EC|EV|ME)/\d{5}/\d{2}`,
      read position by position. */
  predicate IsStudentId(t: string) {
    && |t| == 12
    && t[0] == 'S'
    && IsBranchPair(t[1], t[2])
    && t[3] == '/'
    && AllDigits(t[4..9])
    && t[9] == '/'
    && AllDigits(t[10..])
  }

  /** The string the pattern's pieces spell out. */
  function Compose(branch: string, number: string, year: string): string {
    "S" + branch + "/" + number + "/" + year
  }

  /** The pieces the pattern is built from. */
  predicate IsPieces(branch: string, number: string, year: string) {
    |branch| == 2 && IsBranchPair(branch[0], branch[1]) && |number| == 5 && AllDigits(number) && |year| == 2 && AllDigits(year)
  }

  /** A student ID is exactly a composition of admissible pieces. */
  lemma StudentIdIff(t: string)
    ensures IsStudentId(t) <==>
            exists branch, number, year :: IsPieces(branch, number, year) && t == Compose(branch, number, year)
  {
    if |t| == 12 {
      BranchPairIff(t[1..3]);
    }
    if IsStudentId(t) {
      assert t == Compose(t[1..3], t[4..9], t[10..]);
      assert IsPieces(t[1..3], t[4..9], t[10..]);
    }
    if exists branch, number, year :: IsPieces(branch, number, year) && t == Compose(branch, number, year) {
      var branch, number, year :| IsPieces(branch, number, year) && t == Compose(branch, number, year);
      assert t[1..3] == branch;
      assert t[4..9] == number;
      assert t[10..] == year;
      assert t[1..3][0] == t[1] && t[1..3][1] == t[2];
    }
  }

  /** `cleanStudentID`: trim, then upper-case. */
  function CleanStudentID(code: string): string {
    ToUpper(Trim(code))
  }

  /** Cleaning a clean string changes nothing. */
  lemma CleanIdempotent(code: string)
    ensures CleanStudentID(CleanStudentID(code)) == CleanStudentID(code)
  {
    var t := Trim(code);
    UpperEnds(t);
    TrimKeeps(ToUpper(t));
    UpperIdempotent(t);
  }

  /** Cleaning ignores white space around the code and lower-case letters in
      it. */
  lemma CleanIgnoresCaseAndBlanks(pre: string, code: string, post: string)
    requires AllWhiteSpace(pre) && AllWhiteSpace(post)
    ensures CleanStudentID(pre + ToLower(code) + post) == CleanStudentID(code)
  {
    TrimPadded(pre, ToLower(code), post);
    TrimLower(code);
    UpperOfLower(Trim(code));
  }

  /** A student ID is already clean. */
  lemma StudentIdIsClean(t: string)
    requires IsStudentId(t)
    ensures CleanStudentID(t) == t
  {
    assert !IsWhiteSpace(t[11]) by { assert t[11] == t[10..][1]; }
    TrimKeeps(t);
    assert HasNoLowerAscii(t) by {
      forall i | 0 <= i < |t| ensures !('a' <= t[i] <= 'z') {
        if 1 <= i < 3 {
          assert t[i] == t[1..3][i - 1];
        } else if 4 <= i < 9 {
          assert t[i] == t[4..9][i - 4];
        } else if 10 <= i {
          assert t[i] == t[10..][i - 10];
        }
      }
    }
    UpperKeeps(t);
  }

  /** `isValidStudentID`: false for a non-string or the empty string;
      otherwise whether the cleaned code matches the pattern. */
  predicate IsValidStudentID(code: Code) {
    code.Text? && code.s != "" && IsStudentId(CleanStudentID(code.s))
  }

  /** The decoder's code is accepted exactly when it is a string whose
      trimmed, upper-cased form is `S` + branch + `/` + 5 digits + `/` + 2 digits. */
  lemma ValidStudentIdIff(code: Code)
    ensures IsValidStudentID(code) <==>
            && code.Text?
            && exists branch, number, year ::
                 IsPieces(branch, number, year) && CleanStudentID(code.s) == Compose(branch, number, year)
  {
    if code.Text? {
      StudentIdIff(CleanStudentID(code.s));
      if code.s == "" {
        assert Trim(code.s) == "";
        assert !IsStudentId(CleanStudentID(code.s));
      }
    }
  }

  /** A student ID is accepted by `isValidStudentID` as it stands. */
  lemma StudentIdIsValid(t: string)
    requires IsStudentId(t)
    ensures IsValidStudentID(Text(t))
  {
    StudentIdIsClean(t);
  }

  /** `code.split('/')` cuts a student ID into `S` + branch, the number and
      the year. */
  lemma SplitStudentId(t: string)
    requires IsStudentId(t)
    ensures Split(t, '/') == [t[..3], t[4..9], t[10..]]
  {
    var parts := [t[..3], t[4..9], t[10..]];
    assert '/' !in t[..3] by {
      assert t[..3] == [t[0]] + t[1..3];
    }
    assert '/' !in t[4..9] by {
      forall i | 0 <= i < 5 ensures t[4..9][i] != '/' {
        assert IsDigit(t[4..9][i]);
      }
    }
    assert '/' !in t[10..] by {
      forall i | 0 <= i < 2 ensures t[10..][i] != '/' {
        assert IsDigit(t[10..][i]);
      }
    }
    assert Join(parts, '/') == t by {
      assert Join(parts[2..], '/') == t[10..];
      assert Join(parts[1..], '/') == t[4..9] + "/" + t[10..];
    }
    SplitJoin(parts, '/');
  }

  /** Display information attached to a branch code. */
  datatype BranchInfo = BranchInfo(name: string, cssClass: string, color: string, icon: string)

  datatype Option<T> = None | Some(value: T)

  /** The `branches` object literal of `getBranchInfo`: the entry stored under
      the two-letter key `x` `y`, if any. */
  function BranchEntry(x: char, y: char): Option<BranchInfo> {
    if x == 'A' && y == 'U' then Some(BranchInfo("Automobile Engineering", "branch-au", "#E91E63", "fa-car"))
    else if x == 'C' && y == 'E' then Some(BranchInfo("Civil Engineering", "branch-ce", "#009688", "fa-building"))
    else if x == 'C' && y == 'V' then Some(BranchInfo("Civil & Environmental Engineering", "branch-cv", "#795548", "fa-tree"))
    else if x == 'C' && y == 'S' then Some(BranchInfo("Computer Science & Engineering", "branch-cs", "#2196F3", "fa-laptop-code"))
    else if x == 'E' && y == 'E' then Some(BranchInfo("Electrical & Electronics Engineering", "branch-ee", "#FF9800", "fa-bolt"))
    else if x == 'C' && y == 'O' then Some(BranchInfo("Computer Science & Engineering (Data Science)", "branch-co", "#673AB7", "fa-chart-line"))
    else if x == 'C' && y == 'T' then Some(BranchInfo("Computer Science & Engineering (AI)", "branch-ct", "#9C27B0", "fa-robot"))
    else if x == 'E' && y == 'C' then Some(BranchInfo("Electronics & Communication Engineering", "branch-ec", "#4CAF50", "fa-satellite-dish"))
    else if x == 'E' && y == 'V' then Some(BranchInfo("Electronics & Communication Engineering (VLSI)", "branch-ev", "#FF5722", "fa-microchip"))
    else if x == 'M' && y == 'E' then Some(BranchInfo("Mechanical Engineering", "branch-me", "#F44336", "fa-cogs"))
    else None
  }

  /** Whether the table has an entry under `code`; only two-letter strings
      can be keys. */
  predicate InTable(code: string) {
    |code| == 2 && BranchEntry(code[0], code[1]).Some?
  }

  /** The entry used for a code the table does not know. */
  function FallbackBranch(code: string): BranchInfo {
    BranchInfo(code + " Branch", "branch-cs", "#2196F3", "fa-graduation-cap")
  }

  /** `getBranchInfo`: the table entry for `code`, or the generic one. */
  function GetBranchInfo(code: string): BranchInfo {
    if InTable(code) then BranchEntry(code[0], code[1]).value else FallbackBranch(code)
  }

  /** The table's keys are the letter pairs of the pattern. */
  lemma EntryIffPair(x: char, y: char)
    ensures BranchEntry(x, y).Some? <==> IsBranchPair(x, y)
  {
  }

  /** What every entry looks like: a name, and the CSS class `branch-`
      followed by its key in lower case. */
  predicate EntryShaped(x: char, y: char)
    requires BranchEntry(x, y).Some?
  {
    |BranchEntry(x, y).value.name| > 0 && BranchEntry(x, y).value.cssClass == "branch-" + [LowerChar(x), LowerChar(y)]
  }

  lemma EntryClassC(y: char)
    requires BranchEntry('C', y).Some?
    ensures EntryShaped('C', y)
  {
  }

  lemma EntryClassE(y: char)
    requires BranchEntry('E', y).Some?
    ensures EntryShaped('E', y)
  {
  }

  /** Each entry has a name and the CSS class `branch-` followed by its key
      in lower case. */
  lemma EntryClass(x: char, y: char)
    requires BranchEntry(x, y).Some?
    ensures |BranchEntry(x, y).value.name| > 0
    ensures BranchEntry(x, y).value.cssClass == "branch-" + [LowerChar(x), LowerChar(y)]
  {
    if x == 'C' {
      EntryClassC(y);
    } else if x == 'E' {
      EntryClassE(y);
    }
  }

  /** The table has an entry for exactly the ten codes the pattern admits;
      each entry has a name and the CSS class `branch-` followed by the
      lower-cased code. */
  lemma BranchKeys(code: string)
    ensures InTable(code) <==> code in BranchCodes
    ensures InTable(code) ==> |code| == 2 && IsBranchPair(code[0], code[1])
    ensures InTable(code) ==> var info := BranchEntry(code[0], code[1]).value;
                              |info.name| > 0 && info.cssClass == "branch-" + ToLower(code)
  {
    if |code| == 2 {
      EntryIffPair(code[0], code[1]);
      BranchPairIff(code);
      if InTable(code) {
        EntryClass(code[0], code[1]);
        assert ToLower(code) == [LowerChar(code[0]), LowerChar(code[1])];
      }
    } else {
      assert code !in BranchCodes;
    }
  }

  /** `getBranchInfo` gives a known code its table entry and any other code
      the generic "<code> Branch" entry styled as `branch-cs`. */
  lemma GetBranchInfoSpec(code: string)
    ensures var info := GetBranchInfo(code);
            && (code in BranchCodes ==> info.cssClass == "branch-" + ToLower(code) && |info.name| > 0
                                        && info.icon != "fa-graduation-cap")
            && (code !in BranchCodes ==> info.name == code + " Branch" && info.cssClass == "branch-cs"
                                         && info.color == "#2196F3" && info.icon == "fa-graduation-cap")
  {
    BranchKeys(code);
  }
}
