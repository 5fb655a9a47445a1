// ProducerCallback.cpp: the object that passes delivery reports on, and that owns the
// callback object it passes them to, until it is given another.
module DeliveryCallback {
  import opened Producer

  // An object with the interface ProducerISendCallback.
  class SendCallback {
    var deleted: bool
    var succeeded: seq<Msg>
    var failed: seq<Msg>

    constructor ()
      ensures !deleted && succeeded == [] && failed == []
    {
      deleted, succeeded, failed := false, [], [];
    }

    method Delete()
      requires !deleted
      modifies this`deleted
      ensures deleted
    {
      deleted := true;
    }
  }

  class Dispatcher {
    var sendCallback: SendCallback?   // _sendCallback
    var isDefault: bool               // _isDefaultCallback

    // Reports can be passed on.
    predicate Usable()
      reads this, sendCallback
    {
      sendCallback != null && !sendCallback.deleted
    }

    constructor ()
      ensures Usable() && isDefault && fresh(sendCallback) && sendCallback.succeeded == [] && sendCallback.failed == []
    {
      sendCallback := new SendCallback();
      isDefault := true;
    }

    // dr_cb
    method DrCb(r: Report)
      requires Usable()
      modifies sendCallback
      ensures Usable() && sendCallback == old(sendCallback) && isDefault == old(isDefault)
      ensures !sendCallback.deleted
      ensures r.status in {PossiblyPersisted, Persisted}
              <==> sendCallback.succeeded == old(sendCallback.succeeded) + [r.msg]
      ensures r.status in {NotPersisted, OtherStatus} <==> sendCallback.failed == old(sendCallback.failed) + [r.msg]
      ensures r.status in {PossiblyPersisted, Persisted} ==> sendCallback.failed == old(sendCallback.failed)
      ensures r.status in {NotPersisted, OtherStatus} ==> sendCallback.succeeded == old(sendCallback.succeeded)
    {
      match r.status {
        case NotPersisted => sendCallback.failed := sendCallback.failed + [r.msg];
        case PossiblyPersisted => sendCallback.succeeded := sendCallback.succeeded + [r.msg];
        case Persisted => sendCallback.succeeded := sendCallback.succeeded + [r.msg];
        case OtherStatus => sendCallback.failed := sendCallback.failed + [r.msg];
      }
    }

    // setSendCallback deletes the callback it replaces, whoever made it.  A live new
    // callback can be used afterwards exactly if it is not the one being replaced.
    method SetSendCallback(cb: SendCallback?)
      requires sendCallback != null ==> !sendCallback.deleted
      requires cb != null ==> !cb.deleted
      modifies this, sendCallback
      ensures sendCallback == cb && !isDefault
      ensures old(sendCallback) != null ==> old(sendCallback).deleted
      ensures Usable() <==> cb != null && cb != old(sendCallback)
      ensures cb != null ==> (cb.deleted <==> cb == old(sendCallback))
    {
      if sendCallback != null {
        sendCallback.Delete();
        sendCallback := null;
      }
      sendCallback := cb;
      isDefault := false;
    }

    // ~ProducerCallback: deletes the callback only if it is the default one.
    method Destroy()
      requires sendCallback != null ==> !sendCallback.deleted
      modifies this, sendCallback
      ensures isDefault == old(isDefault)
      ensures old(sendCallback) != null ==> (old(sendCallback).deleted <==> isDefault)
    {
      if isDefault {
        if sendCallback != null {
          sendCallback.Delete();
        }
        sendCallback := null;
      }
    }
  }
}
