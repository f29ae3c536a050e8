/**
 The static status code -> reason phrase table of the response object and the
 defaulting rule that both the constructor and `withStatus` apply with it.
 */
module Phrases {
  import opened Wrappers

  /** The table, entry for entry as the source spells it (a sparse, partly
      translated subset of the standard codes, shared read-only by every
      response), read as a lookup: `Some(phrase)` exactly for the codes it
      lists, `None` for every other integer, in particular for every code
      outside 100 to 511. */
  function Lookup(code: int): (r: Option<string>)
    ensures r.Some? ==> 100 <= code <= 511
  {
    match code
    case 100 => Some("Continuar")
    case 101 => Some("Protocolos de Switching")
    case 102 => Some("Procesando")
    case 200 => Some("OK")
    case 201 => Some("Creado")
    case 202 => Some("Aceptado")
    case 203 => Some("Informacion no Autorizada")
    case 204 => Some("Sin contenido")
    case 205 => Some("Restablecer contenido")
    case 206 => Some("Contenido parcial")
    case 207 => Some("Multi-estado")
    case 208 => Some("Ya informado")
    case 300 => Some("Múltiples opciones")
    case 301 => Some("Movido permanentemente")
    case 302 => Some("Encontrado")
    case 303 => Some("Ver otro")
    case 304 => Some("No modificado")
    case 305 => Some("Use Proxy")
    case 306 => Some("Switch Proxy")
    case 307 => Some("Temporary Redirect")
    case 400 => Some("Bad Request")
    case 401 => Some("No autorizado")
    case 402 => Some("Pago requerido")
    case 403 => Some("Olvidado")
    case 404 => Some("No encontrado")
    case 405 => Some("Metodo no permitido")
    case 406 => Some("No aceptable")
    case 407 => Some("Requiere actualización de Proxy")
    case 408 => Some("Solicitar tiempo de espera")
    case 409 => Some("Conflicto")
    case 410 => Some("Se ha ido")
    case 411 => Some("Longitud requerida")
    case 412 => Some("Condición previa Falló")
    case 413 => Some("Solicitar entidad demasiado grande")
    case 414 => Some("Request-URI demasiado grande")
    case 415 => Some("Tipo de papel no admitido")
    case 416 => Some("Rango solicitado no satisfactorio")
    case 417 => Some("Expectativa fallida")
    case 418 => Some("Yo'soy una tetera")
    case 422 => Some("Entidad no procesable")
    case 423 => Some("Bloqueado")
    case 424 => Some("Dependencia fallida")
    case 425 => Some("Colección desordenada")
    case 426 => Some("Se requiere actualización")
    case 428 => Some("Requisito previo")
    case 429 => Some("Demasiadas solicitudes")
    case 431 => Some("Campos de encabezado de solicitud demasiado grandes")
    case 451 => Some("No disponible por motivos legales")
    case 500 => Some("Error de servidor interno")
    case 501 => Some("No implementada")
    case 502 => Some("Puerta de enlace incorrecta")
    case 503 => Some("Servicio no disponible")
    case 504 => Some("Tiempo de espera de puerta de enlace")
    case 505 => Some("La variante también negocia")
    case 506 => Some("Variant Also Negotiates")
    case 507 => Some("Espacio insuficiente")
    case 508 => Some("Bucle detectado")
    case 511 => Some("Se requiere autenticación de red")
    case _ => None
  }

  /** `isset` on the table: the table lists `code`. A listed code always has
      a non-empty phrase, so a defaulted reason is never "". */
  predicate Known(code: int): (b: bool)
    ensures b ==> Lookup(code).Some? && Lookup(code).value != ""
  {
    Lookup(code).Some?
  }

  /** The reason a response ends up with for `code` when the caller supplied
      `reason`: a known code with an empty reason takes the table's phrase,
      everything else keeps the caller's string verbatim (possibly empty). */
  function Resolve(code: int, reason: string): (r: string)
    ensures reason != "" ==> r == reason
    ensures reason == "" && Known(code) ==> r == Lookup(code).value
    ensures reason == "" && !Known(code) ==> r == ""
  {
    if reason == "" && Known(code) then Lookup(code).value else reason
  }

  /** The resolved reason is empty exactly when no reason was supplied and
      the code is unknown to the table. */
  lemma ResolveEmptyIff(code: int, reason: string)
    ensures Resolve(code, reason) == "" <==> reason == "" && !Known(code)
  {
  }

  /** Resolving an already resolved reason changes nothing. */
  lemma ResolveIdempotent(code: int, reason: string)
    ensures Resolve(code, Resolve(code, reason)) == Resolve(code, reason)
  {
    ResolveEmptyIff(code, reason);
  }
}
