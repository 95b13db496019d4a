/** The opcodes the gateway sends, expects or looks for, as bytes. */
module Opcodes {
  import opened Base
  import opened Utf8

  const COMMAND: Bytes := [65, 65, 67, 77, 68]
  const SIZE: Bytes := [115, 105, 122, 101]
  const MOUSE: Bytes := [109, 111, 117, 115, 101]
  const KEY: Bytes := [107, 101, 121]
  const SERVER_INFO: Bytes := [115, 101, 114, 118, 101, 114, 95, 105, 110, 102, 111]
  const SELECT: Bytes := [115, 101, 108, 101, 99, 116]
  const AUDIO: Bytes := [97, 117, 100, 105, 111]
  const VIDEO: Bytes := [118, 105, 100, 101, 111]
  const IMAGE: Bytes := [105, 109, 97, 103, 101]
  const CONNECT: Bytes := [99, 111, 110, 110, 101, 99, 116]
  const ARGS: Bytes := [97, 114, 103, 115]
  const READY: Bytes := [114, 101, 97, 100, 121]

  lemma CommandBytes()
    ensures Ascii("AACMD") == COMMAND && IsAscii(COMMAND)
  {
  }

  lemma SizeBytes()
    ensures Ascii("size") == SIZE && IsAscii(SIZE)
  {
  }

  lemma MouseBytes()
    ensures Ascii("mouse") == MOUSE && IsAscii(MOUSE)
  {
  }

  lemma KeyBytes()
    ensures Ascii("key") == KEY && IsAscii(KEY)
  {
  }

  lemma ServerInfoBytes()
    ensures Ascii("server_info") == SERVER_INFO && IsAscii(SERVER_INFO)
  {
  }

  lemma SelectBytes()
    ensures Ascii("select") == SELECT && IsAscii(SELECT)
  {
  }

  lemma AudioBytes()
    ensures Ascii("audio") == AUDIO && IsAscii(AUDIO)
  {
  }

  lemma VideoBytes()
    ensures Ascii("video") == VIDEO && IsAscii(VIDEO)
  {
  }

  lemma ImageBytes()
    ensures Ascii("image") == IMAGE && IsAscii(IMAGE)
  {
  }

  lemma ConnectBytes()
    ensures Ascii("connect") == CONNECT && IsAscii(CONNECT)
  {
  }

  lemma ArgsBytes()
    ensures Ascii("args") == ARGS && IsAscii(ARGS)
  {
  }

  lemma ReadyBytes()
    ensures Ascii("ready") == READY && IsAscii(READY)
  {
  }
}
