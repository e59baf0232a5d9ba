/**
 * The editor's notifications (web_packages/fluttron_milkdown/frontend/src/events.js).
 *
 * Each emitter builds one event, a name under the prefix `fluttron.milkdown.editor`
 * with a `detail` payload; dispatching it on the window is I/O and is modelled by the
 * caller appending the event to a log. The clock read for `updatedAt` is a parameter.
 */
module Events {
  import opened JsText

  const EventPrefix: string := "fluttron.milkdown.editor"

  /** The exported `EVENT_NAMES` record. */
  datatype EventNames = EventNames(change: string, ready: string, focus: string, blur: string)

  const EVENT_NAMES: EventNames := EventNames(
    EventPrefix + ".change", EventPrefix + ".ready", EventPrefix + ".focus", EventPrefix + ".blur")

  /** The `detail` of a dispatched event. */
  datatype Detail =
    | ChangeDetail(viewId: int, markdown: string, characterCount: nat, lineCount: nat, updatedAt: string)
    | ViewDetail(viewId: int)

  datatype Event = Event(name: string, detail: Detail)

  /** The number of lines of a markdown string: the pieces of `markdown.split('\n')`. */
  function LineCount(markdown: string): (n: nat)
    ensures n == Count(markdown, '\n') + 1
  {
    |Split(markdown, '\n')|
  }

  /** `emitEditorChange`: the whole current markdown, its `length` in UTF-16 code units and its line count. */
  function EmitEditorChange(viewId: int, markdown: string, updatedAt: string): (e: Event)
    ensures e.name == EVENT_NAMES.change
    ensures e.detail.ChangeDetail? && e.detail.viewId == viewId && e.detail.markdown == markdown
    ensures e.detail.characterCount == Utf16Length(markdown)
    ensures e.detail.lineCount == Count(markdown, '\n') + 1 >= 1
    ensures e.detail.updatedAt == updatedAt
  {
    Event(EventPrefix + ".change",
          ChangeDetail(viewId, markdown, Utf16Length(markdown), LineCount(markdown), updatedAt))
  }

  /** `emitEditorReady`: the payload is the view id and nothing else. */
  function EmitEditorReady(viewId: int): (e: Event)
    ensures e.name == EVENT_NAMES.ready && e.detail == ViewDetail(viewId)
  {
    Event(EventPrefix + ".ready", ViewDetail(viewId))
  }

  /** `emitEditorFocus`: the payload is the view id and nothing else. */
  function EmitEditorFocus(viewId: int): (e: Event)
    ensures e.name == EVENT_NAMES.focus && e.detail == ViewDetail(viewId)
  {
    Event(EventPrefix + ".focus", ViewDetail(viewId))
  }

  /** `emitEditorBlur`: the payload is the view id and nothing else. */
  function EmitEditorBlur(viewId: int): (e: Event)
    ensures e.name == EVENT_NAMES.blur && e.detail == ViewDetail(viewId)
  {
    Event(EventPrefix + ".blur", ViewDetail(viewId))
  }

  /** The four event names are pairwise distinct, so a subscriber can tell the kinds apart. */
  lemma EventNamesDistinct()
    ensures |{EVENT_NAMES.change, EVENT_NAMES.ready, EVENT_NAMES.focus, EVENT_NAMES.blur}| == 4
  {
    var n := EVENT_NAMES;
    var p := |EventPrefix|;
    assert n.change[p + 1] == 'c' && n.ready[p + 1] == 'r' && n.focus[p + 1] == 'f' && n.blur[p + 1] == 'b';
    assert n.change != n.ready && n.change != n.focus && n.change != n.blur;
    assert n.ready != n.focus && n.ready != n.blur && n.focus != n.blur;
  }

  /** Every event name lies under the prefix, after a dot. */
  lemma EventNamesUnderPrefix()
    ensures forall name :: name in {EVENT_NAMES.change, EVENT_NAMES.ready, EVENT_NAMES.focus, EVENT_NAMES.blur} ==>
      |name| > |EventPrefix| + 1 && name[..|EventPrefix| + 1] == EventPrefix + "."
  {
    var p := EventPrefix + ".";
    assert EVENT_NAMES.change == p + "change";
    assert EVENT_NAMES.ready == p + "ready";
    assert EVENT_NAMES.focus == p + "focus";
    assert EVENT_NAMES.blur == p + "blur";
  }

  /**
   * A change event carries the full markdown, not a difference: the line count and
   * the text of every line can be recovered from the payload alone.
   */
  lemma ChangePayloadIsComplete(viewId: int, markdown: string, updatedAt: string)
    ensures var d := EmitEditorChange(viewId, markdown, updatedAt).detail;
      |Split(d.markdown, '\n')| == d.lineCount && Join(Split(d.markdown, '\n'), '\n') == markdown
  {
    JoinSplit(markdown, '\n');
  }
}
