/** InstallerProgress: the sink for the installer's progress messages. */
module Progress {

  /** A progress message, before localisation and formatting. */
  datatype Event = DownloadingLibrary(library: string) | Done

  /** Appending one message after a run of messages is appending it to that run. */
  lemma AppendAssoc(a: seq<Event>, b: seq<Event>, e: Event)
    ensures (a + b) + [e] == a + (b + [e])
  {
  }

  /** Records every message handed to `updateProgress`, in order. */
  class InstallerProgress {
    var messages: seq<Event>

    method UpdateProgress(e: Event)
      modifies this
      ensures messages == old(messages) + [e]
    {
      messages := messages + [e];
    }
  }
}
