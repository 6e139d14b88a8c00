/** Download bookkeeping (`download_files`): each day of the window is
    requested once; a 200 answer is saved under the day's file name, any other
    status appends one line to the append-only log. The HTTP session is replaced
    by the sequence of responses it would return, the disk by a map from file
    names to contents, and `log.txt` by its sequence of lines. */
module Fetch {
  import opened Wrappers
  import opened Text
  import opened Calendar
  import opened DateWindow
  import opened Naming

  const StatusOk := 200

  datatype Response = Response(status: int, content: seq<bv8>)

  const MessageHead := "Erro ao acessar o link: "
  const StatusLabel := " - Código de Status: "

  /** The line written to `log.txt` for a failed download (without its newline). */
  function ErrorMessage(link: string, status: int): (message: string)
    ensures |message| > |MessageHead| + |link| + |StatusLabel|
    ensures message[..|MessageHead| + |link|] == MessageHead + link
  {
    NatToStringIsDecimal(if status < 0 then -status else status);
    MessageHead + link + StatusLabel + IntToString(status)
  }

  /** For a status code (never negative), the log line is the fixed head, the
      link, the status label and the decimal numeral of the status, which reads
      back as the status. */
  lemma ErrorMessageStatus(link: string, status: int)
    requires status >= 0
    ensures var k := |MessageHead| + |link| + |StatusLabel|;
      && ErrorMessage(link, status)[..k] == MessageHead + link + StatusLabel
      && AllDigits(ErrorMessage(link, status)[k..])
      && DecimalValue(ErrorMessage(link, status)[k..]) == status
  {
    var head := MessageHead + link + StatusLabel;
    NatToStringIsDecimal(status);
    assert ErrorMessage(link, status) == head + NatToString(status);
    assert (head + NatToString(status))[|head|..] == NatToString(status);
  }

  /** The local file names of the days, in order. */
  function FileNames(days: seq<Date>): (names: seq<string>)
    requires forall i :: 0 <= i < |days| ==> Valid(days[i])
    ensures |names| == |days|
  {
    seq(|days|, i requires 0 <= i < |days| => FileName(days[i]))
  }

  /** The download links of the days, in order. */
  function DownloadLinks(days: seq<Date>): (links: seq<string>)
    requires forall i :: 0 <= i < |days| ==> Valid(days[i])
    ensures |links| == |days|
  {
    seq(|days|, i requires 0 <= i < |days| => DownloadLink(days[i]))
  }

  /** The folder after saving, in order, every download answered with 200. */
  function SavedFolder(folder: map<string, seq<bv8>>, names: seq<string>, responses: seq<Response>): map<string, seq<bv8>>
    requires |names| == |responses|
  {
    if names == [] then folder
    else
      var n := |names| - 1;
      var before := SavedFolder(folder, names[..n], responses[..n]);
      if responses[n].status == StatusOk then before[names[n] := responses[n].content] else before
  }

  /** The line each download would log if it failed, in order. */
  function ErrorMessages(links: seq<string>, responses: seq<Response>): (messages: seq<string>)
    requires |links| == |responses|
    ensures |messages| == |links|
  {
    seq(|links|, i requires 0 <= i < |links| => ErrorMessage(links[i], responses[i].status))
  }

  /** The lines appended to the log, in order: the message of every download
      not answered with 200. */
  function FailureLines(messages: seq<string>, responses: seq<Response>): seq<string>
    requires |messages| == |responses|
  {
    if messages == [] then []
    else
      var n := |messages| - 1;
      var before := FailureLines(messages[..n], responses[..n]);
      if responses[n].status == StatusOk then before else before + [messages[n]]
  }

  lemma SavedFolderStep(folder: map<string, seq<bv8>>, names: seq<string>, responses: seq<Response>, i: int)
    requires |names| == |responses| && 0 <= i < |names|
    ensures SavedFolder(folder, names[..i + 1], responses[..i + 1])
      == if responses[i].status == StatusOk
         then SavedFolder(folder, names[..i], responses[..i])[names[i] := responses[i].content]
         else SavedFolder(folder, names[..i], responses[..i])
  {
    assert names[..i + 1][..i] == names[..i];
    assert responses[..i + 1][..i] == responses[..i];
  }

  lemma FailureLinesStep(messages: seq<string>, responses: seq<Response>, i: int)
    requires |messages| == |responses| && 0 <= i < |messages|
    ensures FailureLines(messages[..i + 1], responses[..i + 1])
      == if responses[i].status == StatusOk
         then FailureLines(messages[..i], responses[..i])
         else FailureLines(messages[..i], responses[..i]) + [messages[i]]
  {
    assert messages[..i + 1][..i] == messages[..i];
    assert responses[..i + 1][..i] == responses[..i];
  }

  /** What the loop of `download_files` has done after its first `i` passes:
      saved the files and logged the failures of those days. */
  ghost predicate Logged(folder: map<string, seq<bv8>>, log: seq<string>,
                         folder0: map<string, seq<bv8>>, log0: seq<string>,
                         names: seq<string>, messages: seq<string>, responses: seq<Response>, i: int)
  {
    && |messages| == |names| && |responses| == |names| && 0 <= i <= |names|
    && folder == SavedFolder(folder0, names[..i], responses[..i])
    && log == log0 + FailureLines(messages[..i], responses[..i])
  }

  lemma LoggedStep(folder: map<string, seq<bv8>>, log: seq<string>,
                   folder': map<string, seq<bv8>>, log': seq<string>,
                   folder0: map<string, seq<bv8>>, log0: seq<string>,
                   names: seq<string>, messages: seq<string>, responses: seq<Response>, i: int)
    requires Logged(folder, log, folder0, log0, names, messages, responses, i) && i < |names|
    requires folder' == if responses[i].status == StatusOk then folder[names[i] := responses[i].content] else folder
    requires log' == if responses[i].status == StatusOk then log else log + [messages[i]]
    ensures Logged(folder', log', folder0, log0, names, messages, responses, i + 1)
  {
    SavedFolderStep(folder0, names, responses, i);
    FailureLinesStep(messages, responses, i);
  }

  lemma LoggedAll(folder: map<string, seq<bv8>>, log: seq<string>,
                  folder0: map<string, seq<bv8>>, log0: seq<string>,
                  names: seq<string>, messages: seq<string>, responses: seq<Response>)
    requires Logged(folder, log, folder0, log0, names, messages, responses, |names|)
    ensures folder == SavedFolder(folder0, names, responses)
    ensures log == log0 + FailureLines(messages, responses)
  {
    assert names[..|names|] == names;
    assert messages[..|names|] == messages;
    assert responses[..|names|] == responses;
  }

  /** How many of the first `i` responses are failures. */
  function FailuresBefore(responses: seq<Response>, i: int): (k: nat)
    requires 0 <= i <= |responses|
    ensures k <= i
  {
    if i == 0 then 0
    else FailuresBefore(responses, i - 1) + (if responses[i - 1].status == StatusOk then 0 else 1)
  }

  /** One log line per failed download and none for a saved one. */
  lemma {:induction false} FailureLinesCount(messages: seq<string>, responses: seq<Response>)
    requires |messages| == |responses|
    ensures |FailureLines(messages, responses)| == FailuresBefore(responses, |responses|)
  {
    if messages != [] {
      var n := |messages| - 1;
      FailureLinesCount(messages[..n], responses[..n]);
      FailuresBeforeAgree(responses, n, n);
    }
  }

  /** The lines appear in day order: the failure of day `i` is line number
      `FailuresBefore(responses, i)` of what the downloads append. */
  lemma {:induction false} FailureLineOfDay(messages: seq<string>, responses: seq<Response>, i: int)
    requires |messages| == |responses|
    requires 0 <= i < |messages| && responses[i].status != StatusOk
    ensures FailuresBefore(responses, i) < |FailureLines(messages, responses)|
    ensures FailureLines(messages, responses)[FailuresBefore(responses, i)] == messages[i]
  {
    var n := |messages| - 1;
    var before := FailureLines(messages[..n], responses[..n]);
    var last := if responses[n].status == StatusOk then [] else [messages[n]];
    assert FailureLines(messages, responses) == before + last;
    var k := FailuresBefore(responses, i);
    if i < n {
      assert messages[..n][i] == messages[i] && responses[..n][i] == responses[i];
      FailureLineOfDay(messages[..n], responses[..n], i);
      FailuresBeforeAgree(responses, n, i);
      assert k < |before| && before[k] == messages[i];
    } else {
      FailureLinesCount(messages[..n], responses[..n]);
      FailuresBeforeAgree(responses, n, n);
      assert k == |before| && last == [messages[i]];
    }
  }

  /** The log line of a failed day names its link and its status. */
  lemma FailureLineText(links: seq<string>, responses: seq<Response>, i: int)
    requires |links| == |responses|
    requires 0 <= i < |links| && responses[i].status != StatusOk
    ensures FailuresBefore(responses, i) < |FailureLines(ErrorMessages(links, responses), responses)|
    ensures FailureLines(ErrorMessages(links, responses), responses)[FailuresBefore(responses, i)]
      == MessageHead + links[i] + StatusLabel + IntToString(responses[i].status)
  {
    FailureLineOfDay(ErrorMessages(links, responses), responses, i);
  }

  /** Counting failures in a prefix is counting them in the whole sequence up to that point. */
  lemma {:induction false} FailuresBeforeAgree(responses: seq<Response>, n: int, i: int)
    requires 0 <= i <= n <= |responses|
    ensures FailuresBefore(responses[..n], i) == FailuresBefore(responses, i)
  {
    if i > 0 {
      FailuresBeforeAgree(responses, n, i - 1);
      assert responses[..n][i - 1] == responses[i - 1];
    }
  }

  /** When no two downloads share a file name, the file of a download answered
      with 200 holds exactly that download. */
  lemma {:induction false} SavedFileHoldsDownload(folder: map<string, seq<bv8>>, names: seq<string>, responses: seq<Response>, i: int)
    requires |names| == |responses|
    requires forall j, k :: 0 <= j < k < |names| ==> names[j] != names[k]
    requires 0 <= i < |names| && responses[i].status == StatusOk
    ensures names[i] in SavedFolder(folder, names, responses)
    ensures SavedFolder(folder, names, responses)[names[i]] == responses[i].content
  {
    var n := |names| - 1;
    if i < n {
      assert names[..n][i] == names[i] && responses[..n][i] == responses[i];
      SavedFileHoldsDownload(folder, names[..n], responses[..n], i);
    }
  }

  /** A file name outside the window keeps its old content: the downloads only
      write the window's own files. */
  lemma {:induction false} SavedFolderLeavesOthers(folder: map<string, seq<bv8>>, names: seq<string>, responses: seq<Response>, name: string)
    requires |names| == |responses|
    requires name !in names
    ensures name in SavedFolder(folder, names, responses) <==> name in folder
    ensures name in folder ==> SavedFolder(folder, names, responses)[name] == folder[name]
  {
    if names != [] {
      var n := |names| - 1;
      assert name !in names[..n];
      SavedFolderLeavesOthers(folder, names[..n], responses[..n], name);
    }
  }

  /** The days of a window get pairwise different file names. */
  lemma WindowFileNamesDistinct(days: seq<Date>, cur: int, n: int)
    requires IsWindowFrom(days, cur, n)
    ensures forall j, k :: 0 <= j < k < |days| ==> FileNames(days)[j] != FileNames(days)[k]
  {
    forall j, k | 0 <= j < k < |days| ensures FileNames(days)[j] != FileNames(days)[k] {
      if FileName(days[j]) == FileName(days[k]) {
        FileNameInjective(days[j], days[k]);
        assert false;
      }
    }
  }

  /** The local folder and the log file the downloads write to. */
  class Workspace {
    var folder: map<string, seq<bv8>>
    var log: seq<string>

    constructor (folder0: map<string, seq<bv8>>, log0: seq<string>)
      ensures folder == folder0 && log == log0
    {
      folder := folder0;
      log := log0;
    }

    /** Pass `i` of the loop of `download_files`, the file name of the day
        being `names[i]`: the file is written when the server answers 200, and
        the log gets that day's error line otherwise. */
    method DownloadDay(names: seq<string>, links: seq<string>, responses: seq<Response>, i: int)
      requires |links| == |names| && |responses| == |names| && 0 <= i < |names|
      modifies this
      ensures folder == if responses[i].status == StatusOk then old(folder)[names[i] := responses[i].content] else old(folder)
      ensures log == if responses[i].status == StatusOk then old(log) else old(log) + [ErrorMessages(links, responses)[i]]
    {
      var fileName := names[i];
      var response := responses[i];
      if response.status == StatusOk {
        folder := folder[fileName := response.content];
      } else {
        var errorMessage := ErrorMessage(links[i], response.status);
        log := log + [errorMessage];
      }
    }

    /** The loop of `download_files` over `zip(weekdays, download_links)`, the
        file name of each day given by `names`: one request per day, answered by
        the matching response. */
    method SaveOrLog(names: seq<string>, links: seq<string>, responses: seq<Response>)
      requires |links| == |names| && |responses| == |names|
      modifies this
      ensures folder == SavedFolder(old(folder), names, responses)
      ensures log == old(log) + FailureLines(ErrorMessages(links, responses), responses)
    {
      ghost var messages := ErrorMessages(links, responses);
      ghost var folder0, log0 := folder, log;
      for i := 0 to |names|
        invariant Logged(folder, log, folder0, log0, names, messages, responses, i)
      {
        ghost var before, logBefore := folder, log;
        DownloadDay(names, links, responses, i);
        LoggedStep(before, logBefore, folder, log, folder0, log0, names, messages, responses, i);
      }
      LoggedAll(folder, log, folder0, log0, names, messages, responses);
    }

    /** `download_files` run on `today`, the server answering the five requests
        with `responses`. `ok` is false when `get_last_weekdays` raised, in which
        case nothing is written. */
    method DownloadFiles(today: Date, responses: seq<Response>) returns (ok: bool)
      requires Valid(today)
      requires |responses| == DefaultWindow
      modifies this
      ensures ok <==> LastWeekdays(today, DefaultWindow).Some?
      ensures !ok ==> folder == old(folder) && log == old(log)
      ensures ok ==>
        var days := LastWeekdays(today, DefaultWindow).value;
        && (forall i :: 0 <= i < |days| ==> Valid(days[i]))
        && folder == SavedFolder(old(folder), FileNames(days), responses)
        && log == old(log) + FailureLines(ErrorMessages(DownloadLinks(days), responses), responses)
    {
      var window := GetLastWeekdays(today, DefaultWindow);
      if window.None? {
        return false;
      }
      var weekdays := window.value;
      LastWeekdaysIsWindow(today, DefaultWindow);
      var links := GenerateDownloadLinks(weekdays);
      assert links == DownloadLinks(weekdays);
      var names := FileNames(weekdays);
      SaveOrLog(names, links, responses);
      return true;
    }
  }
}
