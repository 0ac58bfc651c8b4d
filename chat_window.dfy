/** src/components/ChatWindow.tsx: the compose box. Its only state is the
    draft (`newMessage`); the input's change handler overwrites it, and
    the Enter key and the Send button both run handleSend. A call of the
    `onSendMessage` callback is modelled as the text handleSend returns. */
module ChatWindow {
  import opened ChatData
  import opened Text

  class Composer {
    /** The text in the input box. */
    var draft: string

    constructor ()
      ensures draft == []
    {
      draft := [];
    }

    /** onChange: the draft becomes the input's value. */
    method Change(value: string)
      modifies this
      ensures draft == value
    {
      draft := value;
    }

    /** handleSend: a draft that trims to nothing is ignored and kept;
        otherwise the trimmed text is handed to onSendMessage exactly once
        and the draft is cleared. What is sent is never blank and neither
        starts nor ends with white space. */
    method HandleSend() returns (sent: Option<string>)
      modifies this
      ensures Trim(old(draft)) == [] ==> sent == None && draft == old(draft)
      ensures Trim(old(draft)) != [] ==> sent == Some(Trim(old(draft))) && draft == []
      ensures sent.Some? ==>
        sent.value != [] && !IsWhitespace(sent.value[0]) &&
        !IsWhitespace(sent.value[|sent.value| - 1])
    {
      var text := Trim(draft);
      if text != [] {
        TrimIsCore(draft);
        sent := Some(text);
        draft := [];
      } else {
        sent := None;
      }
    }

    /** onKeyPress: only Enter sends. */
    method KeyPress(key: string) returns (sent: Option<string>)
      modifies this
      ensures key != "Enter" ==> sent == None && draft == old(draft)
      ensures key == "Enter" && Trim(old(draft)) == [] ==> sent == None && draft == old(draft)
      ensures key == "Enter" && Trim(old(draft)) != [] ==>
        sent == Some(Trim(old(draft))) && draft == []
    {
      if key == "Enter" {
        sent := HandleSend();
      } else {
        sent := None;
      }
    }

    /** The Send button's onClick. */
    method ClickSend() returns (sent: Option<string>)
      modifies this
      ensures Trim(old(draft)) == [] ==> sent == None && draft == old(draft)
      ensures Trim(old(draft)) != [] ==> sent == Some(Trim(old(draft))) && draft == []
    {
      sent := HandleSend();
    }
  }
}
