/**
 * The helpers of common.go: the yes/no confirmation loop over the lines of
 * standard input, the backup file name, and the slice boxing used to pass
 * names to the query builder.
 */
module Common {
  import opened Text

  /** How one answer line is read, after trimming and lower-casing. */
  datatype Answer = Yes | No | Default | Unrecognised

  function Classify(line: string): Answer {
    var s := ToLower(TrimSpace(line));
    if s == "" then Default
    else if s == "y" || s == "yes" then Yes
    else if s == "n" || s == "no" then No
    else Unrecognised
  }

  /** What `confirm` answers for the given input lines: the first line
      it recognises decides; once input is exhausted the read yields "",
      which is the fallback. */
  function Decide(lines: seq<string>, fallback: bool): bool {
    if lines == [] then fallback
    else
      match Classify(lines[0])
      case Default => fallback
      case Yes => true
      case No => false
      case Unrecognised => Decide(lines[1..], fallback)
  }

  /** How many times `confirm` prompts: once per line it reads, including
      the empty read at the end of input. */
  function Reads(lines: seq<string>): (n: nat)
    ensures 1 <= n <= |lines| + 1
  {
    if lines == [] || Classify(lines[0]) != Unrecognised then 1 else 1 + Reads(lines[1..])
  }

  /** Unrecognised lines are skipped and the first recognised one decides;
      input with no recognised line gives the fallback. */
  lemma {:induction false} FirstRecognisedDecides(lines: seq<string>, fallback: bool, k: nat)
    requires k <= |lines|
    requires forall i :: 0 <= i < k ==> Classify(lines[i]) == Unrecognised
    ensures k == |lines| ==> Decide(lines, fallback) == fallback && Reads(lines) == |lines| + 1
    ensures k < |lines| && Classify(lines[k]) == Yes ==> Decide(lines, fallback) && Reads(lines) == k + 1
    ensures k < |lines| && Classify(lines[k]) == No ==> !Decide(lines, fallback) && Reads(lines) == k + 1
    ensures k < |lines| && Classify(lines[k]) == Default ==> Decide(lines, fallback) == fallback && Reads(lines) == k + 1
  {
    if k > 0 {
      FirstRecognisedDecides(lines[1..], fallback, k - 1);
    }
  }

  /** The hint after the question: the capital letter is the fallback. */
  function OptionsHint(fallback: bool): (hint: string)
    ensures hint == "Y/n" <==> fallback
    ensures hint == "y/N" <==> !fallback
  {
    if fallback then "Y/n" else "y/N"
  }

  /** The prompt written to standard error before each read. */
  function Prompt(message: string, fallback: bool): string {
    message + " (" + OptionsHint(fallback) + ") "
  }

  /** `confirm(message, fallback)` reading `stdin` line by line: returns
      the decision and the prompts written, one per read. */
  method Confirm(message: string, fallback: bool, stdin: seq<string>) returns (yes: bool, shown: seq<string>)
    ensures yes == Decide(stdin, fallback)
    ensures |shown| == Reads(stdin)
    ensures forall i :: 0 <= i < |shown| ==> shown[i] == Prompt(message, fallback)
  {
    var i;
    i, shown := Scan(stdin, Prompt(message, fallback));
    yes := Verdict(Classify(if i < |stdin| then stdin[i] else ""), fallback);
    ScanDecides(stdin, fallback, i);
  }

  /** The loop of `confirm`: prompt, read, and go on while the line read
      is not recognised. Returns where it stopped and the prompts written. */
  method Scan(stdin: seq<string>, prompt: string) returns (i: nat, shown: seq<string>)
    ensures i <= |stdin|
    ensures forall k :: 0 <= k < i ==> Classify(stdin[k]) == Unrecognised
    ensures i == |stdin| || Classify(stdin[i]) != Unrecognised
    ensures |shown| == i + 1 && forall k :: 0 <= k < |shown| ==> shown[k] == prompt
  {
    i := 0;
    shown := [prompt];
    while i < |stdin| && Classify(stdin[i]) == Unrecognised
      invariant 0 <= i <= |stdin|
      invariant forall k :: 0 <= k < i ==> Classify(stdin[k]) == Unrecognised
      invariant |shown| == i + 1 && forall k :: 0 <= k <= i ==> shown[k] == prompt
    {
      shown := shown + [prompt];
      i := i + 1;
    }
  }

  /** What a recognised answer means; anything else is the fallback. */
  function Verdict(a: Answer, fallback: bool): bool {
    if a == Yes then true else if a == No then false else fallback
  }

  /** Where the scan for the first recognised line stops, that line (or
      the empty read at the end of input) decides, after one read per
      line scanned. */
  lemma ScanDecides(lines: seq<string>, fallback: bool, k: nat)
    requires k <= |lines|
    requires forall i :: 0 <= i < k ==> Classify(lines[i]) == Unrecognised
    requires k == |lines| || Classify(lines[k]) != Unrecognised
    ensures Decide(lines, fallback) == Verdict(Classify(if k < |lines| then lines[k] else ""), fallback)
    ensures Reads(lines) == k + 1
  {
    FirstRecognisedDecides(lines, fallback, k);
    EmptyReadIsDefault();
  }

  /** The read at the end of input yields "", which is the fallback. */
  lemma EmptyReadIsDefault()
    ensures Classify("") == Default
  {
    assert TrimSpace("") == "";
  }

  /** A UTC instant as `time.Time.Format` reads it. */
  datatype Instant = Instant(year: nat, month: nat, day: nat, hour: nat, minute: nat, second: nat)

  predicate ValidInstant(t: Instant) {
    t.year < 10000 && 1 <= t.month <= 12 && 1 <= t.day <= 31 && t.hour < 24 && t.minute < 60 && t.second < 60
  }

  /** The layout "20060102150405": zero-padded fields, no separators. */
  function Stamp(t: Instant): string {
    Decimal(t.year, 4) + Decimal(t.month, 2) + Decimal(t.day, 2)
    + Decimal(t.hour, 2) + Decimal(t.minute, 2) + Decimal(t.second, 2)
  }

  /** `backupName(name)` for the snake-cased name and the current UTC time. */
  function BackupName(snakeName: string, now: Instant): string {
    snakeName + "_" + Stamp(now) + ".zip"
  }

  /** The time stamp is fourteen digits. */
  lemma StampShape(t: Instant)
    requires ValidInstant(t)
    ensures |Stamp(t)| == 14
    ensures forall i :: 0 <= i < 14 ==> '0' <= Stamp(t)[i] <= '9'
  {
    DecimalWidth(t.year, 4);
    DecimalWidth(t.month, 2);
    DecimalWidth(t.day, 2);
    DecimalWidth(t.hour, 2);
    DecimalWidth(t.minute, 2);
    DecimalWidth(t.second, 2);
  }

  /** A backup name is the snake-cased name, an underscore, fourteen digits
      of time stamp and the extension ".zip". */
  lemma BackupNameShape(snakeName: string, now: Instant)
    requires ValidInstant(now)
    ensures |BackupName(snakeName, now)| == |snakeName| + 19
    ensures BackupName(snakeName, now)[..|snakeName| + 1] == snakeName + "_"
    ensures forall i :: |snakeName| + 1 <= i < |snakeName| + 15 ==> '0' <= BackupName(snakeName, now)[i] <= '9'
    ensures Ext(BackupName(snakeName, now)) == ".zip"
  {
    StampShape(now);
    var stamp := Stamp(now);
    var name := BackupName(snakeName, now);
    var base := snakeName + "_" + stamp;
    assert name == base + "." + "zip";
    forall i | |snakeName| + 1 <= i < |snakeName| + 15
      ensures '0' <= name[i] <= '9'
    {
      assert name[i] == base[i] == stamp[i - |snakeName| - 1];
    }
    assert name[..|snakeName| + 1] == base[..|snakeName| + 1] == snakeName + "_";
    ExtOfDotted(base, "zip");
  }

  /** A value boxed as `any`. */
  datatype Any<T> = Any(value: T)

  /** `sliceToAnySlice(s)`: each element boxed, in order. */
  method SliceToAnySlice<T>(s: seq<T>) returns (r: seq<Any<T>>)
    ensures |r| == |s|
    ensures forall i :: 0 <= i < |s| ==> r[i].value == s[i]
  {
    r := [];
    for i := 0 to |s|
      invariant |r| == i
      invariant forall k :: 0 <= k < i ==> r[k].value == s[k]
    {
      r := r + [Any(s[i])];
    }
  }
}
